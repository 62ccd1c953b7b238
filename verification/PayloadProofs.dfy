/** Encoding and decoding a payload are inverse, for all five kinds. */
module PayloadProofs {
  import opened Prelude
  import opened Layout
  import opened Payload
  import Tlv

  // ---------------------------------------------------------------- parts

  lemma PartDecoded(p: Part, data: seq<byte>, values: Record)
    requires PartOk(p) && |data| == p.size && DecodeFields(p.fields, data) == Ok(values)
    ensures EncodeFields(p.fields, values) == Some(data)
    ensures values.Keys == WireNames(p.fields)
    ensures ReservedZero(p.fields, values)
  {
    hide *;
    PartIsLayout(p);
    LayoutBijection(p.fields, p.size, values, data);
  }

  lemma PartIsLayout(p: Part)
    requires PartOk(p)
    ensures IsLayout(p.fields, p.size) && Contiguous(p.fields, 0) && End(p.fields, 0) == p.size
  {
  }

  lemma PartEncoded(p: Part, values: Record, data: seq<byte>)
    requires PartOk(p) && EncodeFields(p.fields, values) == Some(data)
    ensures |data| == p.size
    ensures DecodeFields(p.fields, data)
         == if ReservedZero(p.fields, values) then Ok(Normal(p.fields, values)) else Err(BadReserved)
  {
    hide *;
    PartIsLayout(p);
    EncodedLength(p.fields, values, 0);
    DecodeEncoded(p.fields, values, [], data, []);
    assert [] + data + [] == data;
  }

  // ---------------------------------------------------------------- records

  function ConsRecord(first: Result<Record, Code>, rest: Result<seq<Record>, Code>): Result<seq<Record>, Code> {
    if first.Err? then Err(first.error)
    else if rest.Err? then Err(rest.error)
    else Ok([first.value] + rest.value)
  }

  lemma DecodeRecordsStep(record: Part, head: seq<byte>, tail: seq<byte>, count: nat)
    requires |head| == record.size && |tail| == count * record.size
    ensures |head + tail| == (count + 1) * record.size
    ensures DecodeRecords(record, head + tail, count + 1)
         == ConsRecord(DecodeFields(record.fields, head), DecodeRecords(record, tail, count))
  {
    hide DecodeFields;
    assert (count + 1) * record.size == count * record.size + record.size;
    assert (head + tail)[..record.size] == head && (head + tail)[record.size..] == tail;
  }

  lemma EncodeRecordsStep(fields: seq<Field>, first: Record, rest: seq<Record>)
    ensures EncodeRecords(fields, [first] + rest) == Chain(EncodeFields(fields, first), EncodeRecords(fields, rest))
  {
    hide EncodeFields, Chain;
    assert ([first] + rest)[1..] == rest;
  }

  lemma {:induction false} RecordsDecoded(record: Part, data: seq<byte>, count: nat, records: seq<Record>)
    requires PartOk(record) && |data| == count * record.size && DecodeRecords(record, data, count) == Ok(records)
    ensures |records| == count && EncodeRecords(record.fields, records) == Some(data)
    decreases count
  {
    hide *;
    if count == 0 {
      NoRecords(record, data);
    } else {
      RecordFits(record.size, |data|, count);
      var head, tail := data[..record.size], data[record.size..];
      assert data == head + tail;
      DecodeRecordsStep(record, head, tail, count - 1);
      ConsOk(DecodeFields(record.fields, head), DecodeRecords(record, tail, count - 1), records);
      RecordsDecoded(record, tail, count - 1, records[1..]);
      PartDecoded(record, head, records[0]);
      EncodeRecordsStep(record.fields, records[0], records[1..]);
      ChainOk(head, tail);
    }
  }

  lemma NoRecords(record: Part, data: seq<byte>)
    requires |data| == 0 * record.size
    ensures data == [] && DecodeRecords(record, data, 0) == Ok([])
    ensures EncodeRecords(record.fields, []) == Some([])
    ensures AllReservedZero(record.fields, []) && AllNormal(record.fields, []) == []
  {
  }

  lemma ConsOk(first: Result<Record, Code>, rest: Result<seq<Record>, Code>, records: seq<Record>)
    requires ConsRecord(first, rest) == Ok(records)
    ensures records != [] && first == Ok(records[0]) && rest == Ok(records[1..]) && records == [records[0]] + records[1..]
  {
    assert ([first.value] + rest.value)[1..] == rest.value;
  }

  lemma ChainOk(head: seq<byte>, tail: seq<byte>)
    ensures Chain(Some(head), Some(tail)) == Some(head + tail)
  {
  }

  lemma ChainSplit(a: Option<seq<byte>>, b: Option<seq<byte>>, data: seq<byte>) returns (head: seq<byte>, tail: seq<byte>)
    requires Chain(a, b) == Some(data)
    ensures a == Some(head) && b == Some(tail) && data == head + tail
  {
    head, tail := a.value, b.value;
  }

  function AllNormal(fields: seq<Field>, records: seq<Record>): seq<Record> {
    if records == [] then [] else [Normal(fields, records[0])] + AllNormal(fields, records[1..])
  }

  predicate AllReservedZero(fields: seq<Field>, records: seq<Record>) {
    records != [] ==> ReservedZero(fields, records[0]) && AllReservedZero(fields, records[1..])
  }

  /** What decoding an encoding gives. */
  function Accepted<T>(clean: bool, value: T): Result<T, Code> {
    if clean then Ok(value) else Err(BadReserved)
  }

  lemma {:induction false} RecordsEncoded(record: Part, records: seq<Record>, data: seq<byte>)
    requires PartOk(record) && EncodeRecords(record.fields, records) == Some(data)
    ensures |data| == |records| * record.size
    ensures DecodeRecords(record, data, |records|)
         == Accepted(AllReservedZero(record.fields, records), AllNormal(record.fields, records))
    decreases |records|
  {
    hide *;
    if records == [] {
      EmptyRecords(record);
      assert |data| == 0 * record.size;
    } else {
      var first, rest := records[0], records[1..];
      assert records == [first] + rest;
      EncodeRecordsStep(record.fields, first, rest);
      var head, tail := ChainSplit(EncodeFields(record.fields, first), EncodeRecords(record.fields, rest), data);
      PartEncoded(record, first, head);
      RecordsEncoded(record, rest, tail);
      DecodeRecordsStep(record, head, tail, |rest|);
      AcceptedStep(record.fields, first, rest);
    }
  }

  lemma EmptyRecords(record: Part)
    ensures EncodeRecords(record.fields, []) == Some([])
    ensures DecodeRecords(record, [], 0) == Accepted(AllReservedZero(record.fields, []), AllNormal(record.fields, []))
  {
  }

  lemma AcceptedStep(fields: seq<Field>, first: Record, rest: seq<Record>)
    ensures ConsRecord(if ReservedZero(fields, first) then Ok(Normal(fields, first)) else Err(BadReserved),
                       Accepted(AllReservedZero(fields, rest), AllNormal(fields, rest)))
         == Accepted(AllReservedZero(fields, [first] + rest), AllNormal(fields, [first] + rest))
  {
    hide ReservedZero, Normal;
    assert ([first] + rest)[1..] == rest;
  }

  // ---------------------------------------------------------------- decoding, then encoding

  /** Every accepted payload is rebuilt byte for byte from what it decodes to. */
  lemma EncodeDecodedShape(policies: Policies, s: Shape, data: seq<byte>, values: Values)
    requires ShapeOk(s) && Unambiguous(s) && DecodeShape(policies, s, data) == Ok(values)
    ensures EncodeShape(policies, s, values) == Some(data)
  {
    hide DecodeFields, EncodeFields, PartOk, SizeBounds, DecodeVariant, DecodeBounded, DecodeSuffix, DecodeTlvs,
         EncodeVariant, EncodeBounded, EncodeSuffix, EncodeTlvs, CountFieldOk, DistinctVariants, WireNames;
    BoundsOf(s);
    match s
    case Fixed(part) => PartDecoded(part, data, values.fields);
    case Variants(_) => EncodeDecodedVariant(s, data, values);
    case Bounded(_, _, _, _) => EncodeDecodedBounded(s, data, values);
    case Suffix(_, _, _, _, _) => EncodeDecodedSuffix(policies, s, data, values);
    case Tlvs(_, _) => EncodeDecodedTlvs(policies, s, data, values);
  }

  lemma BoundsOf(s: Shape)
    requires ShapeOk(s)
    ensures s.Fixed? ==> SizeBounds(s) == (s.part.size, s.part.size)
    ensures s.Bounded? ==> SizeBounds(s) == (s.prefix.size, s.prefix.size + s.record.size * s.countMax)
    ensures s.Suffix? ==> SizeBounds(s) == (s.prefix.size, s.prefix.size + s.suffixMax)
    ensures s.Tlvs? ==> SizeBounds(s) == (s.prefix.size, s.prefix.size + s.maxBytes)
    ensures s.Variants? ==> SizeBounds(s) == (SmallestSize(s.variants), LargestSize(s.variants))
  {
    hide PartOk, CountFieldOk;
  }

  lemma {:induction false} VariantFound(vs: seq<Variant>, size: nat) returns (i: nat)
    requires VariantSized(vs, size).Some? && DistinctVariants(vs)
    ensures i < |vs| && vs[i] == VariantSized(vs, size).value && vs[i].part.size == size
    ensures VariantNamed(vs, vs[i].name) == Some(vs[i]) && vs[i].name != ""
  {
    if vs[0].part.size == size {
      i := 0;
    } else {
      assert forall j :: 0 <= j < |vs[1..]| ==> vs[1..][j] == vs[j + 1];
      var j := VariantFound(vs[1..], size);
      i := j + 1;
    }
  }

  lemma EncodeDecodedVariant(s: Shape, data: seq<byte>, values: Values)
    requires s.Variants? && ShapeOk(s) && DistinctVariants(s.variants) && DecodeVariant(s, data) == Ok(values)
    ensures EncodeVariant(s, values) == Some(data)
  {
    var i := VariantFound(s.variants, |data|);
    hide DecodeFields, EncodeFields, PartOk, VariantSized, VariantNamed, DistinctVariants;
    PartDecoded(s.variants[i].part, data, values.fields);
  }

  lemma EncodeDecodedBounded(s: Shape, data: seq<byte>, values: Values)
    requires s.Bounded? && ShapeOk(s) && s.prefix.size <= |data| && DecodeBounded(s, data) == Ok(values)
    ensures EncodeBounded(s, values) == Some(data)
  {
    hide *;
    ShapeParts(s);
    var head, tail := data[..s.prefix.size], data[s.prefix.size..];
    var count := BoundedDecoded(s, data, values);
    PartDecoded(s.prefix, head, values.fields);
    RecordsDecoded(s.record, tail, count, values.records);
    CountedAgain(s, values, count);
    EncodeBoundedUnfold(s, values);
    ChainOk(head, tail);
    assert data == head + tail;
  }

  lemma ShapeParts(s: Shape)
    requires ShapeOk(s)
    ensures s.Bounded? ==> PartOk(s.prefix) && PartOk(s.record)
    ensures s.Suffix? || s.Tlvs? ==> PartOk(s.prefix)
    ensures s.Fixed? ==> PartOk(s.part)
  {
    hide PartOk;
  }

  lemma BoundedDecoded(s: Shape, data: seq<byte>, values: Values) returns (count: nat)
    requires s.Bounded? && s.prefix.size <= |data| && DecodeBounded(s, data) == Ok(values)
    ensures DecodeFields(s.prefix.fields, data[..s.prefix.size]) == Ok(values.fields)
    ensures values == Flat(values.fields).(records := values.records)
    ensures Lookup(values.fields, s.countField) == Some(Num(count)) && count <= s.countMax
    ensures |data[s.prefix.size..]| == count * s.record.size
    ensures DecodeRecords(s.record, data[s.prefix.size..], count) == Ok(values.records)
  {
    hide DecodeFields, DecodeRecords;
    count := values.fields[s.countField].n;
  }

  lemma CountedAgain(s: Shape, values: Values, count: nat)
    requires s.Bounded? && values == Flat(values.fields).(records := values.records)
    requires Lookup(values.fields, s.countField) == Some(Num(count)) && count == |values.records| <= s.countMax
    ensures CountedPrefix(s, values) == Some(values.fields)
  {
    assert values.fields[s.countField := Num(count)] == values.fields;
  }

  lemma EncodeBoundedUnfold(s: Shape, values: Values)
    requires s.Bounded? && CountedPrefix(s, values).Some?
    ensures EncodeBounded(s, values)
         == Chain(EncodeFields(s.prefix.fields, CountedPrefix(s, values).value), EncodeRecords(s.record.fields, values.records))
  {
    hide EncodeFields, EncodeRecords, CountedPrefix, Chain;
  }

  lemma EncodeDecodedSuffix(policies: Policies, s: Shape, data: seq<byte>, values: Values)
    requires s.Suffix? && ShapeOk(s) && s.suffixName !in WireNames(s.prefix.fields)
    requires s.prefix.size <= |data| <= s.prefix.size + s.suffixMax && DecodeSuffix(policies, s, data) == Ok(values)
    ensures EncodeSuffix(policies, s, values) == Some(data)
  {
    hide *;
    ShapeParts(s);
    var head, suffix := data[..s.prefix.size], data[s.prefix.size..];
    var prefix := SuffixDecoded(policies, s, data, values);
    PartDecoded(s.prefix, head, prefix);
    EncodeWider(s.prefix.fields, prefix, s.suffixName, Raw(suffix));
    LengthAgain(s, prefix, Raw(suffix), |suffix|);
    EncodeSuffixAgain(policies, s, values, prefix[s.suffixName := Raw(suffix)], head, suffix);
    assert data == head + suffix;
  }

  lemma SuffixDecoded(policies: Policies, s: Shape, data: seq<byte>, values: Values) returns (prefix: Record)
    requires s.Suffix? && s.prefix.size <= |data| && DecodeSuffix(policies, s, data) == Ok(values)
    ensures DecodeFields(s.prefix.fields, data[..s.prefix.size]) == Ok(prefix)
    ensures var suffix := data[s.prefix.size..];
            && values == Flat(prefix[s.suffixName := Raw(suffix)])
            && LengthAgrees(s, prefix, Raw([]), |suffix|)
            && CommandOk(policies, s, suffix)
  {
    hide DecodeFields, LengthAgrees, CommandOk;
    prefix := DecodeFields(s.prefix.fields, data[..s.prefix.size]).value;
  }

  /** A stranger in the record does not change the encoding. */
  lemma EncodeWider(fields: seq<Field>, values: Record, name: string, v: FieldValue)
    requires name !in WireNames(fields)
    ensures EncodeFields(fields, values[name := v]) == EncodeFields(fields, values)
  {
    hide EncodeFields;
    forall i | 0 <= i < |fields| ensures Lookup(values[name := v], fields[i].name) == Lookup(values, fields[i].name) {
      assert fields[i].name in WireNames(fields);
    }
    EncodeIgnoresStrangers(fields, values[name := v], values);
  }

  lemma {:induction false} EncodeIgnoresStrangers(fields: seq<Field>, a: Record, b: Record)
    requires forall i :: 0 <= i < |fields| ==> Lookup(a, fields[i].name) == Lookup(b, fields[i].name)
    ensures EncodeFields(fields, a) == EncodeFields(fields, b)
  {
    if fields != [] {
      hide EncodeField;
      EncodeIgnoresStrangers(fields[1..], a, b);
    }
  }

  lemma {:induction false} LengthFieldInLayout(fields: seq<Field>, lengthField: Option<string>)
    ensures LengthFieldOf(fields, lengthField).Some? ==> LengthFieldOf(fields, lengthField).value in WireNames(fields)
  {
    if fields != [] {
      LengthFieldInLayout(fields[1..], lengthField);
      WireNamesStep(fields);
      hide EndsWithLength;
    }
  }

  lemma LengthAgain(s: Shape, prefix: Record, v: FieldValue, length: nat)
    requires s.Suffix? && LengthAgrees(s, prefix, Raw([]), length) && s.suffixName !in WireNames(s.prefix.fields)
    ensures LengthAgrees(s, prefix[s.suffixName := v], Num(length), length)
  {
    LengthFieldInLayout(s.prefix.fields, s.lengthField);
    hide WireNames, LengthFieldOf;
  }

  lemma EncodeSuffixAgain(policies: Policies, s: Shape, values: Values, fields: Record, head: seq<byte>, suffix: seq<byte>)
    requires s.Suffix? && values == Flat(fields) && s.suffixName in fields && fields[s.suffixName] == Raw(suffix)
    requires EncodeFields(s.prefix.fields, fields) == Some(head) && |suffix| <= s.suffixMax
    requires LengthAgrees(s, fields, Num(|suffix|), |suffix|) && CommandOk(policies, s, suffix)
    ensures EncodeSuffix(policies, s, values) == Some(head + suffix)
  {
    hide EncodeFields, LengthAgrees, CommandOk;
  }

  lemma EncodeDecodedTlvs(policies: Policies, s: Shape, data: seq<byte>, values: Values)
    requires s.Tlvs? && ShapeOk(s) && s.prefix.size <= |data| <= s.prefix.size + s.maxBytes
    requires DecodeTlvs(policies, s, data) == Ok(values)
    ensures EncodeTlvs(policies, s, values) == Some(data)
  {
    hide *;
    ShapeParts(s);
    var head, stream := data[..s.prefix.size], data[s.prefix.size..];
    TlvsDecoded(policies, s, data, values);
    PartDecoded(s.prefix, head, values.fields);
    Tlv.TlvBijection(policies.tlv, stream, values.tlvs);
    AllFit(policies.tlv, values.tlvs);
    EncodeTlvsAgain(policies, s, values, head, stream);
    assert data == head + stream;
  }

  lemma TlvsDecoded(policies: Policies, s: Shape, data: seq<byte>, values: Values)
    requires s.Tlvs? && s.prefix.size <= |data| && DecodeTlvs(policies, s, data) == Ok(values)
    ensures DecodeFields(s.prefix.fields, data[..s.prefix.size]) == Ok(values.fields)
    ensures values == Flat(values.fields).(tlvs := values.tlvs)
    ensures Tlv.DecodeSpec(policies.tlv, data[s.prefix.size..]) == Ok(values.tlvs)
  {
    hide DecodeFields, Tlv.DecodeSpec;
  }

  ghost predicate Fit(entries: seq<Tlv.Entry>) {
    forall i :: 0 <= i < |entries| ==> entries[i].Fits()
  }

  lemma AllFit(policy: Tlv.Policy, entries: seq<Tlv.Entry>)
    requires Tlv.AllLawful(policy, entries)
    ensures Fit(entries)
  {
    forall i | 0 <= i < |entries| ensures entries[i].Fits() {
      assert Tlv.Lawful(policy, entries[i]);
    }
  }

  lemma EncodeTlvsAgain(policies: Policies, s: Shape, values: Values, head: seq<byte>, stream: seq<byte>)
    requires s.Tlvs? && values == Flat(values.fields).(tlvs := values.tlvs)
    requires EncodeFields(s.prefix.fields, values.fields) == Some(head)
    requires Fit(values.tlvs) && Tlv.SerializeAll(values.tlvs) == stream && |stream| <= s.maxBytes
    requires Tlv.DecodeSpec(policies.tlv, stream).Ok?
    ensures EncodeTlvs(policies, s, values) == Some(head + stream)
  {
    hide EncodeFields, Tlv.DecodeSpec, Tlv.SerializeAll;
  }

  // ---------------------------------------------------------------- encoding, then decoding

  function SuffixPart(s: Shape, values: Values): seq<byte>
    requires s.Suffix?
  {
    SuffixOf(s, values).GetOr([])
  }

  function Counted(s: Shape, values: Values): Record
    requires s.Bounded?
  {
    PrefixValues(values)[s.countField := Num(|values.records|)]
  }

  /** A payload dict with defaults filled in and strangers dropped, laid out as the decoder does. */
  function NormalValues(s: Shape, values: Values): Values {
    match s
    case Fixed(part) => Flat(Normal(part.fields, values.fields))
    case Variants(_) =>
      var v := VariantAsked(s, values);
      if v.None? then values
      else Flat(Normal(v.value.part.fields, values.fields)).(variant := Some(v.value.name))
    case Bounded(prefix, record, _, _) =>
      Flat(Normal(prefix.fields, Counted(s, values))).(records := AllNormal(record.fields, values.records))
    case Suffix(prefix, suffixName, _, _, _) =>
      Flat(Normal(prefix.fields, PrefixValues(values))[suffixName := Raw(SuffixPart(s, values))])
    case Tlvs(prefix, _) => Flat(Normal(prefix.fields, PrefixValues(values))).(tlvs := values.tlvs)
  }

  /** Reserved fields are given nothing but zero; the variant asked for is the first of its size; and
      the suffix length field, once defaults are filled in, holds the length of the suffix. */
  predicate Recoverable(s: Shape, values: Values) {
    match s
    case Fixed(part) => ReservedZero(part.fields, values.fields)
    case Variants(vs) =>
      var v := VariantAsked(s, values);
      v.Some? ==> ReservedZero(v.value.part.fields, values.fields) && VariantSized(vs, v.value.part.size) == v
    case Bounded(prefix, record, _, _) =>
      ReservedZero(prefix.fields, Counted(s, values)) && AllReservedZero(record.fields, values.records)
    case Suffix(prefix, _, _, _, _) =>
      && ReservedZero(prefix.fields, PrefixValues(values))
      && LengthAgrees(s, Normal(prefix.fields, PrefixValues(values)), Raw([]), |SuffixPart(s, values)|)
    case Tlvs(prefix, _) => ReservedZero(prefix.fields, PrefixValues(values))
  }

  /** Whatever the encoder accepts decodes to its normal form exactly when it is recoverable. */
  lemma DecodeEncodedShape(policies: Policies, s: Shape, values: Values, data: seq<byte>)
    requires ShapeOk(s) && EncodeShape(policies, s, values) == Some(data)
    ensures |data| <= MAX_PAYLOAD
    ensures DecodeShape(policies, s, data) == Ok(NormalValues(s, values)) <==> Recoverable(s, values)
    ensures Unambiguous(s) && !Recoverable(s, values) ==> DecodeShape(policies, s, data).Err?
  {
    hide *;
    ShapeParts(s);
    EncodeShapeUnfold(policies, s, values);
    match s
    case Fixed(part) => DecodeEncodedFixed(policies, s, values, data);
    case Variants(_) => DecodeEncodedVariant(policies, s, values, data);
    case Bounded(_, _, _, _) => DecodeEncodedBounded(policies, s, values, data);
    case Suffix(_, _, _, _, _) => DecodeEncodedSuffix(policies, s, values, data);
    case Tlvs(_, _) => DecodeEncodedTlvs(policies, s, values, data);
  }

  lemma EncodeShapeUnfold(policies: Policies, s: Shape, values: Values)
    ensures s.Fixed? ==> EncodeShape(policies, s, values) == EncodeFields(s.part.fields, values.fields)
    ensures s.Variants? ==> EncodeShape(policies, s, values) == EncodeVariant(s, values)
    ensures s.Bounded? ==> EncodeShape(policies, s, values) == EncodeBounded(s, values)
    ensures s.Suffix? ==> EncodeShape(policies, s, values) == EncodeSuffix(policies, s, values)
    ensures s.Tlvs? ==> EncodeShape(policies, s, values) == EncodeTlvs(policies, s, values)
  {
    hide EncodeFields, EncodeVariant, EncodeBounded, EncodeSuffix, EncodeTlvs;
  }

  lemma DecodeEncodedFixed(policies: Policies, s: Shape, values: Values, data: seq<byte>)
    requires s.Fixed? && ShapeOk(s) && EncodeFields(s.part.fields, values.fields) == Some(data)
    ensures |data| <= MAX_PAYLOAD
    ensures DecodeShape(policies, s, data) == Ok(NormalValues(s, values)) <==> Recoverable(s, values)
    ensures Unambiguous(s) && !Recoverable(s, values) ==> DecodeShape(policies, s, data).Err?
  {
    hide PartOk, EncodeFields, DecodeFields, ReservedZero, Normal;
    PartEncoded(s.part, values.fields, data);
  }

  lemma {:induction false} VariantAt(vs: seq<Variant>, name: string) returns (i: nat)
    requires VariantNamed(vs, name).Some?
    ensures i < |vs| && VariantNamed(vs, name) == Some(vs[i]) && vs[i].name == name
    ensures VariantSized(vs, vs[i].part.size).Some?
    ensures VariantSized(vs, vs[i].part.size).value.part.size == vs[i].part.size
    ensures VariantSized(vs, vs[i].part.size) != Some(vs[i]) ==> VariantSized(vs, vs[i].part.size).value.name != name
    ensures VariantSized(vs, vs[i].part.size).value in vs
  {
    if vs[0].name == name {
      i := 0;
    } else {
      var j := VariantAt(vs[1..], name);
      i := j + 1;
    }
  }

  lemma DecodeEncodedVariant(policies: Policies, s: Shape, values: Values, data: seq<byte>)
    requires s.Variants? && ShapeOk(s) && EncodeVariant(s, values) == Some(data)
    ensures |data| <= MAX_PAYLOAD
    ensures DecodeShape(policies, s, data) == Ok(NormalValues(s, values)) <==> Recoverable(s, values)
    ensures Unambiguous(s) && !Recoverable(s, values) ==> DecodeShape(policies, s, data).Err?
  {
    hide PartOk, EncodeFields, DecodeFields, ReservedZero, Normal, SmallestSize, LargestSize, VariantSized, VariantNamed;
    var i := VariantAt(s.variants, values.variant.value);
    PartEncoded(s.variants[i].part, values.fields, data);
    VariantWithinBounds(s.variants, i);
    OneOfItsSize(s.variants, i);
  }

  /** An encoded variant is read as the first variant of its size, under that variant's name. When that
      is another variant than the one asked for, its name is another too. */
  lemma FirstOfItsSize(policies: Policies, s: Shape, values: Values, data: seq<byte>)
    requires s.Variants? && ShapeOk(s) && EncodeShape(policies, s, values) == Some(data)
    ensures VariantAsked(s, values).Some? && VariantSized(s.variants, |data|).Some?
    ensures var asked, read := VariantAsked(s, values).value, VariantSized(s.variants, |data|).value;
            var fields := DecodeFields(read.part.fields, data);
            && asked.part.size == read.part.size == |data|
            && (read != asked ==> read.name != asked.name)
            && DecodeShape(policies, s, data)
               == if fields.Err? then Err(fields.error) else Ok(Flat(fields.value).(variant := Some(read.name)))
  {
    hide PartOk, EncodeFields, DecodeFields, SmallestSize, LargestSize, VariantSized, VariantNamed;
    var i := VariantAt(s.variants, values.variant.value);
    PartEncoded(s.variants[i].part, values.fields, data);
    VariantWithinBounds(s.variants, i);
  }

  lemma OneOfItsSize(vs: seq<Variant>, i: nat)
    requires i < |vs| && VariantSized(vs, vs[i].part.size).Some?
    requires VariantSized(vs, vs[i].part.size).value in vs
    requires VariantSized(vs, vs[i].part.size).value.part.size == vs[i].part.size
    ensures DistinctVariants(vs) ==> VariantSized(vs, vs[i].part.size) == Some(vs[i])
  {
    hide VariantSized;
  }

  lemma DecodeEncodedBounded(policies: Policies, s: Shape, values: Values, data: seq<byte>)
    requires s.Bounded? && ShapeOk(s) && EncodeBounded(s, values) == Some(data)
    ensures |data| <= MAX_PAYLOAD
    ensures DecodeShape(policies, s, data) == Ok(NormalValues(s, values)) <==> Recoverable(s, values)
    ensures Unambiguous(s) && !Recoverable(s, values) ==> DecodeShape(policies, s, data).Err?
  {
    hide *;
    ShapeParts(s);
    EncodeBoundedParts(s, values, data);
    EncodeBoundedUnfold(s, values);
    var head, tail := ChainSplit(EncodeFields(s.prefix.fields, Counted(s, values)),
                                 EncodeRecords(s.record.fields, values.records), data);
    PartEncoded(s.prefix, Counted(s, values), head);
    RecordsEncoded(s.record, values.records, tail);
    RecordsBound(s, |values.records|);
    NormalCount(s, values);
    DecodeBoundedUnfold(policies, s, head, tail, |values.records|);
    BoundedOutcome(policies, s, values, head, tail);
  }

  lemma EncodeBoundedParts(s: Shape, values: Values, data: seq<byte>)
    requires s.Bounded? && EncodeBounded(s, values) == Some(data)
    ensures CountedPrefix(s, values) == Some(Counted(s, values)) && |values.records| <= s.countMax
  {
    hide EncodeFields, EncodeRecords;
  }

  lemma RecordsBound(s: Shape, n: nat)
    requires s.Bounded? && ShapeOk(s) && n <= s.countMax
    ensures s.prefix.size + n * s.record.size <= s.prefix.size + s.record.size * s.countMax <= MAX_PAYLOAD
  {
    hide PartOk, CountFieldOk;
    assert n * s.record.size <= s.record.size * s.countMax;
  }

  lemma NormalCount(s: Shape, values: Values)
    requires s.Bounded? && ShapeOk(s)
    ensures Lookup(Normal(s.prefix.fields, Counted(s, values)), s.countField) == Some(Num(|values.records|))
  {
    hide PartOk;
    NormalHolds(s.prefix.fields, Counted(s, values), s.countField);
    CountFieldNamed(s.prefix.fields, s.countField);
    hide Normal, WireNames, CountFieldOk;
  }

  lemma CountFieldNamed(fields: seq<Field>, name: string)
    requires CountFieldOk(fields, name)
    ensures name in WireNames(fields)
  {
  }

  lemma {:induction false} NormalHolds(fields: seq<Field>, values: Record, name: string)
    requires name in WireNames(fields) && name in values
    ensures Lookup(Normal(fields, values), name) == Some(values[name])
  {
    WireNamesStep(fields);
    if name in WireNames(fields[1..]) {
      NormalHolds(fields[1..], values, name);
    } else {
      NormalNames(fields[1..], values);
    }
    hide WireNames, DefaultOf;
  }

  /** The bounded decoder on a prefix and records laid side by side. */
  lemma DecodeBoundedUnfold(policies: Policies, s: Shape, head: seq<byte>, tail: seq<byte>, n: nat)
    requires s.Bounded? && ShapeOk(s) && n <= s.countMax && |head| == s.prefix.size && |tail| == n * s.record.size
    requires s.prefix.size + n * s.record.size <= s.prefix.size + s.record.size * s.countMax
    ensures DecodeFields(s.prefix.fields, head).Err? ==>
              DecodeShape(policies, s, head + tail) == Err(DecodeFields(s.prefix.fields, head).error)
    ensures DecodeFields(s.prefix.fields, head).Ok?
            && Lookup(DecodeFields(s.prefix.fields, head).value, s.countField) == Some(Num(n)) ==>
              DecodeShape(policies, s, head + tail)
                == if DecodeRecords(s.record, tail, n).Err? then Err(DecodeRecords(s.record, tail, n).error)
                   else Ok(Flat(DecodeFields(s.prefix.fields, head).value).(records := DecodeRecords(s.record, tail, n).value))
  {
    hide DecodeFields, DecodeRecords, PartOk, CountFieldOk;
    assert (head + tail)[..s.prefix.size] == head && (head + tail)[s.prefix.size..] == tail;
  }

  lemma BoundedOutcome(policies: Policies, s: Shape, values: Values, head: seq<byte>, tail: seq<byte>)
    requires s.Bounded? && ShapeOk(s) && |tail| == |values.records| * s.record.size
    requires DecodeFields(s.prefix.fields, head)
          == if ReservedZero(s.prefix.fields, Counted(s, values)) then Ok(Normal(s.prefix.fields, Counted(s, values)))
             else Err(BadReserved)
    requires DecodeRecords(s.record, tail, |values.records|)
          == Accepted(AllReservedZero(s.record.fields, values.records), AllNormal(s.record.fields, values.records))
    requires DecodeFields(s.prefix.fields, head).Err? ==>
              DecodeShape(policies, s, head + tail) == Err(DecodeFields(s.prefix.fields, head).error)
    requires DecodeFields(s.prefix.fields, head).Ok? ==>
              DecodeShape(policies, s, head + tail)
                == var records := DecodeRecords(s.record, tail, |values.records|);
                   if records.Err? then Err(records.error)
                   else Ok(Flat(DecodeFields(s.prefix.fields, head).value).(records := records.value))
    ensures DecodeShape(policies, s, head + tail) == Ok(NormalValues(s, values)) <==> Recoverable(s, values)
    ensures !Recoverable(s, values) ==> DecodeShape(policies, s, head + tail).Err?
  {
    hide DecodeFields, DecodeRecords, DecodeShape, ReservedZero, Normal, AllReservedZero, AllNormal, Counted;
  }

  lemma DecodeEncodedSuffix(policies: Policies, s: Shape, values: Values, data: seq<byte>)
    requires s.Suffix? && ShapeOk(s) && EncodeSuffix(policies, s, values) == Some(data)
    ensures |data| <= MAX_PAYLOAD
    ensures DecodeShape(policies, s, data) == Ok(NormalValues(s, values)) <==> Recoverable(s, values)
    ensures Unambiguous(s) && !Recoverable(s, values) ==> DecodeShape(policies, s, data).Err?
  {
    hide *;
    ShapeParts(s);
    var head := EncodeSuffixParts(policies, s, values, data);
    PartEncoded(s.prefix, PrefixValues(values), head);
    SuffixOutcome(policies, s, values, head);
  }

  lemma EncodeSuffixParts(policies: Policies, s: Shape, values: Values, data: seq<byte>) returns (head: seq<byte>)
    requires s.Suffix? && EncodeSuffix(policies, s, values) == Some(data)
    ensures EncodeFields(s.prefix.fields, PrefixValues(values)) == Some(head)
    ensures data == head + SuffixPart(s, values) && |SuffixPart(s, values)| <= s.suffixMax
    ensures CommandOk(policies, s, SuffixPart(s, values))
  {
    hide EncodeFields, LengthAgrees, CommandOk;
    head := EncodeFields(s.prefix.fields, PrefixValues(values)).value;
  }

  lemma SuffixOutcome(policies: Policies, s: Shape, values: Values, head: seq<byte>)
    requires s.Suffix? && ShapeOk(s) && |head| == s.prefix.size && |SuffixPart(s, values)| <= s.suffixMax
    requires CommandOk(policies, s, SuffixPart(s, values))
    requires DecodeFields(s.prefix.fields, head)
          == if ReservedZero(s.prefix.fields, PrefixValues(values)) then Ok(Normal(s.prefix.fields, PrefixValues(values)))
             else Err(BadReserved)
    ensures |head + SuffixPart(s, values)| <= MAX_PAYLOAD
    ensures DecodeShape(policies, s, head + SuffixPart(s, values)) == Ok(NormalValues(s, values)) <==> Recoverable(s, values)
    ensures !Recoverable(s, values) ==> DecodeShape(policies, s, head + SuffixPart(s, values)).Err?
  {
    hide DecodeFields, PartOk, ReservedZero, Normal, LengthAgrees, CommandOk, SuffixPart, PrefixValues;
    var suffix := SuffixPart(s, values);
    assert (head + suffix)[..s.prefix.size] == head && (head + suffix)[s.prefix.size..] == suffix;
  }

  lemma DecodeEncodedTlvs(policies: Policies, s: Shape, values: Values, data: seq<byte>)
    requires s.Tlvs? && ShapeOk(s) && EncodeTlvs(policies, s, values) == Some(data)
    ensures |data| <= MAX_PAYLOAD
    ensures DecodeShape(policies, s, data) == Ok(NormalValues(s, values)) <==> Recoverable(s, values)
    ensures Unambiguous(s) && !Recoverable(s, values) ==> DecodeShape(policies, s, data).Err?
  {
    hide *;
    ShapeParts(s);
    var head, stream := EncodeTlvsParts(policies, s, values, data);
    PartEncoded(s.prefix, PrefixValues(values), head);
    StreamRecovered(policies.tlv, values.tlvs);
    TlvsOutcome(policies, s, values, head, stream);
  }

  lemma EncodeTlvsParts(policies: Policies, s: Shape, values: Values, data: seq<byte>)
    returns (head: seq<byte>, stream: seq<byte>)
    requires s.Tlvs? && EncodeTlvs(policies, s, values) == Some(data)
    ensures EncodeFields(s.prefix.fields, PrefixValues(values)) == Some(head)
    ensures data == head + stream && stream == Tlv.SerializeAll(values.tlvs) && |stream| <= s.maxBytes
    ensures Tlv.DecodeSpec(policies.tlv, stream).Ok? && Fit(values.tlvs)
  {
    hide EncodeFields, Tlv.SerializeAll, Tlv.DecodeSpec;
    head := EncodeFields(s.prefix.fields, PrefixValues(values)).value;
    stream := Tlv.SerializeAll(values.tlvs);
  }

  /** An accepted stream decodes to exactly the entries it was made of. */
  lemma StreamRecovered(policy: Tlv.Policy, entries: seq<Tlv.Entry>)
    requires Tlv.DecodeSpec(policy, Tlv.SerializeAll(entries)).Ok? && Fit(entries)
    ensures Tlv.DecodeSpec(policy, Tlv.SerializeAll(entries)) == Ok(entries)
  {
    hide Tlv.DecodeSpec, Tlv.SerializeAll;
    var others := Tlv.DecodeSpec(policy, Tlv.SerializeAll(entries)).value;
    Tlv.TlvBijection(policy, Tlv.SerializeAll(entries), others);
    AllFit(policy, others);
    Tlv.SerializationInjective(entries, others);
  }

  lemma TlvsOutcome(policies: Policies, s: Shape, values: Values, head: seq<byte>, stream: seq<byte>)
    requires s.Tlvs? && ShapeOk(s) && |head| == s.prefix.size && |stream| <= s.maxBytes
    requires Tlv.DecodeSpec(policies.tlv, stream) == Ok(values.tlvs)
    requires DecodeFields(s.prefix.fields, head)
          == if ReservedZero(s.prefix.fields, PrefixValues(values)) then Ok(Normal(s.prefix.fields, PrefixValues(values)))
             else Err(BadReserved)
    ensures |head + stream| <= MAX_PAYLOAD
    ensures DecodeShape(policies, s, head + stream) == Ok(NormalValues(s, values)) <==> Recoverable(s, values)
    ensures !Recoverable(s, values) ==> DecodeShape(policies, s, head + stream).Err?
  {
    hide DecodeFields, PartOk, ReservedZero, Normal, Tlv.DecodeSpec, PrefixValues;
    assert (head + stream)[..s.prefix.size] == head && (head + stream)[s.prefix.size..] == stream;
  }
}
