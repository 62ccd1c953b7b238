/** `encode_payload` and `decode_payload` as they run, each judged by the semantic policy, and what the
 *  pair of them promises. */
module PayloadCodec {
  import opened Prelude
  import opened Layout
  import opened Payload
  import opened PayloadProofs
  import Tlv

  /** The semantic policy: given the message name, the values and the authenticated sender and receiver
      roles (when there are any), the reason to refuse them. */
  type Judge = (string, Values, Option<string>, Option<string>) -> Option<string>

  function EncodePayloadSpec(judge: Judge, name: string, policies: Policies, s: Shape, values: Values): Option<seq<byte>> {
    if judge(name, values, None, None).Some? then None else EncodeShape(policies, s, values)
  }

  function DecodePayloadSpec(judge: Judge, name: string, policies: Policies, s: Shape, data: seq<byte>)
    : Result<Values, Code>
    requires ShapeOk(s)
  {
    var values :- DecodeShape(policies, s, data);
    var fault := judge(name, values, None, None);
    if fault.Some? then Err(Semantic(fault.value)) else Ok(values)
  }

  /** Every accepted payload is encoded again to the same bytes. */
  lemma EncodeDecodedPayload(judge: Judge, name: string, policies: Policies, s: Shape, data: seq<byte>, values: Values)
    requires ShapeOk(s) && Unambiguous(s) && DecodePayloadSpec(judge, name, policies, s, data) == Ok(values)
    ensures EncodePayloadSpec(judge, name, policies, s, values) == Some(data)
  {
    hide DecodeShape, EncodeShape, ShapeOk, Unambiguous;
    EncodeDecodedShape(policies, s, data, values);
  }

  /** Whatever is encoded decodes to its normal form exactly when it is recoverable and the semantic
      policy accepts the normal form too. */
  lemma DecodeEncodedPayload(judge: Judge, name: string, policies: Policies, s: Shape, values: Values, data: seq<byte>)
    requires ShapeOk(s) && EncodePayloadSpec(judge, name, policies, s, values) == Some(data)
    ensures |data| <= MAX_PAYLOAD
    ensures DecodePayloadSpec(judge, name, policies, s, data) == Ok(NormalValues(s, values)) <==>
              Recoverable(s, values) && judge(name, NormalValues(s, values), None, None).None?
    ensures Unambiguous(s) && DecodePayloadSpec(judge, name, policies, s, data).Ok? ==>
              DecodePayloadSpec(judge, name, policies, s, data) == Ok(NormalValues(s, values))
  {
    hide DecodeShape, EncodeShape, ShapeOk, Recoverable, NormalValues, Unambiguous;
    DecodeEncodedShape(policies, s, values, data);
  }

  /** With two variants of one size, what is encoded as the second is read back as the first. */
  lemma TwinVariantsConfused(policies: Policies)
    ensures var f := Field("level", None, Scalar(1, false), 0, false);
            var s := Variants([Variant("up", Part(1, [f])), Variant("down", Part(1, [f]))]);
            var values := Flat(map["level" := Num(7)]).(variant := Some("down"));
            && ShapeOk(s)
            && EncodeShape(policies, s, values) == Some([7])
            && DecodeShape(policies, s, [7]) == Ok(values.(variant := Some("up")))
  {
    var f := Field("level", None, Scalar(1, false), 0, false);
    var s := Variants([Variant("up", Part(1, [f])), Variant("down", Part(1, [f]))]);
    var record: Record := map["level" := Num(7)];
    LevelLayout(f);
    ScalarRoundTrip(1, false, 7, [7]);
    assert PackScalar(1, false, 7) == Some([7]) by {
      assert UnpackScalar(false, [7]) == FromLittleEndian([7]) == 7 + 256 * FromLittleEndian([7][1..]);
    }
    assert [f][1..] == [] && [7] + [] == [7] && record + map[] == record;
    assert EncodeFields([f], record) == Some([7]) by {
      assert EncodeFields([], record) == Some([]);
      assert EncodeField(f, Lookup(record, "level")) == Some([7]);
    }
    LayoutBijection([f], 1, record, [7]);
    assert WireNames([f]) == {"level"} by {
      assert [f][0] == f;
    }
    var vs := s.variants;
    assert vs[1..] == [vs[1]] && [vs[1]][1..] == [];
    assert SmallestSize(vs[1..]) == 1 && LargestSize(vs[1..]) == 1;
    assert VariantNamed(vs, "down") == VariantNamed(vs[1..], "down") == Some(vs[1]);
    hide EncodeFields, DecodeFields;
  }

  lemma LevelLayout(f: Field)
    requires f == Field("level", None, Scalar(1, false), 0, false)
    ensures IsLayout([f], 1)
  {
    assert [f][1..] == [];
    assert End([f], 0) == End([], 1) == 1;
  }

  // ---------------------------------------------------------------- the loops

  method FindNamed(vs: seq<Variant>, name: string) returns (r: Option<Variant>)
    ensures r == VariantNamed(vs, name)
  {
    for i := 0 to |vs|
      invariant VariantNamed(vs, name) == VariantNamed(vs[i..], name)
    {
      if vs[i].name == name {
        return Some(vs[i]);
      }
    }
    r := None;
  }

  method FindSized(vs: seq<Variant>, size: nat) returns (r: Option<Variant>)
    ensures r == VariantSized(vs, size)
  {
    for i := 0 to |vs|
      invariant VariantSized(vs, size) == VariantSized(vs[i..], size)
    {
      if size == vs[i].part.size {
        return Some(vs[i]);
      }
    }
    r := None;
  }

  lemma ChainAssociative(a: seq<byte>, b: Option<seq<byte>>, c: Option<seq<byte>>)
    ensures Chain(Some([]), b) == b && Chain(Some(a), Some([])) == Some(a)
    ensures b.Some? ==> Chain(Some(a), Chain(b, c)) == Chain(Some(a + b.value), c)
    ensures b.None? ==> Chain(Some(a), Chain(b, c)) == None
  {
    if b.Some? && c.Some? {
      assert a + (b.value + c.value) == a + b.value + c.value;
    }
    assert b.Some? ==> [] + b.value == b.value;
    assert a + [] == a;
  }

  /** The records appended to `output` one by one. */
  method AppendRecords(output: seq<byte>, fields: seq<Field>, records: seq<Record>) returns (r: Option<seq<byte>>)
    ensures r == Chain(Some(output), EncodeRecords(fields, records))
  {
    var out := output;
    assert records[0..] == records;
    for i := 0 to |records|
      invariant Chain(Some(output), EncodeRecords(fields, records)) == Chain(Some(out), EncodeRecords(fields, records[i..]))
    {
      hide EncodeFields, Chain;
      var raw := EncodeFields(fields, records[i]);
      assert records[i..] == [records[i]] + records[i + 1..];
      EncodeRecordsStep(fields, records[i], records[i + 1..]);
      ChainAssociative(out, raw, EncodeRecords(fields, records[i + 1..]));
      if raw.None? {
        return None;
      }
      out := out + raw.value;
    }
    ChainAssociative(out, None, None);
    r := Some(out);
  }

  /** The entries appended to `output` one by one, as 16-bit type, 16-bit length and value. */
  method AppendEntries(output: seq<byte>, entries: seq<Tlv.Entry>) returns (r: Option<seq<byte>>)
    ensures r == if Fit(entries) then Some(output + Tlv.SerializeAll(entries)) else None
  {
    var out := output;
    assert entries[0..] == entries;
    for i := 0 to |entries|
      invariant forall j :: 0 <= j < i ==> entries[j].Fits()
      invariant output + Tlv.SerializeAll(entries) == out + Tlv.SerializeAll(entries[i..])
    {
      hide Tlv.Serialize;
      if !entries[i].Fits() {
        return None;
      }
      assert entries[i..][0] == entries[i] && entries[i..][1..] == entries[i + 1..];
      assert out + (Tlv.Serialize(entries[i]) + Tlv.SerializeAll(entries[i + 1..]))
          == out + Tlv.Serialize(entries[i]) + Tlv.SerializeAll(entries[i + 1..]);
      out := out + Tlv.Serialize(entries[i]);
    }
    assert out + [] == out;
    r := Some(out);
  }

  lemma ConsRecordStep(done: seq<Record>, first: Result<Record, Code>, rest: Result<seq<Record>, Code>)
    ensures first.Err? ==> Prepend(done, ConsRecord(first, rest)) == Err(first.error)
    ensures first.Ok? ==> Prepend(done, ConsRecord(first, rest)) == Prepend(done + [first.value], rest)
  {
    if first.Ok? {
      PrependStep(done, [first.value], rest);
    }
  }

  /** The record loop with its cursor. */
  method ReadRecords(record: Part, data: seq<byte>, start: nat, count: nat) returns (r: Result<seq<Record>, Code>)
    requires start + count * record.size == |data|
    ensures r == DecodeRecords(record, data[start..], count)
  {
    hide *;
    var records: seq<Record> := [];
    var cursor := start;
    ghost var left := count;
    PrependStep([], [], DecodeRecords(record, data[start..], count));
    for i := 0 to count
      invariant left == count - i
      invariant start <= cursor <= |data| && |data| - cursor == left * record.size
      invariant DecodeRecords(record, data[start..], count)
             == Prepend(records, DecodeRecords(record, data[cursor..], left))
    {
      RecordTurn(record, data, cursor, left, records);
      var end := cursor + record.size;
      var first := DecodeFields(record.fields, data[cursor..end]);
      if first.Err? {
        return Err(first.error);
      }
      records := records + [first.value];
      cursor := end;
      left := left - 1;
    }
    NoRecords(record, data[cursor..], records);
    r := Ok(records);
  }

  lemma NoRecords(record: Part, data: seq<byte>, done: seq<Record>)
    requires |data| == 0 * record.size
    ensures Prepend(done, DecodeRecords(record, data, 0)) == Ok(done)
  {
    assert done + [] == done;
  }

  lemma RecordTurn(record: Part, data: seq<byte>, cursor: nat, n: nat, done: seq<Record>)
    requires cursor <= |data| && |data| - cursor == n * record.size && n > 0
    ensures cursor + record.size <= |data| && |data| - (cursor + record.size) == (n - 1) * record.size
    ensures var end := cursor + record.size;
            var first := DecodeFields(record.fields, data[cursor..end]);
            Prepend(done, DecodeRecords(record, data[cursor..], n))
              == if first.Err? then Err(first.error)
                 else Prepend(done + [first.value], DecodeRecords(record, data[end..], n - 1))
  {
    hide *;
    RecordFits(record.size, |data| - cursor, n);
    var end := cursor + record.size;
    assert data[cursor..] == data[cursor..end] + data[end..];
    DecodeRecordsStep(record, data[cursor..end], data[end..], n - 1);
    ConsRecordStep(done, DecodeFields(record.fields, data[cursor..end]), DecodeRecords(record, data[end..], n - 1));
  }

  method FindLengthField(fields: seq<Field>, lengthField: Option<string>) returns (r: Option<string>)
    ensures r == LengthFieldOf(fields, lengthField)
  {
    for i := 0 to |fields|
      invariant LengthFieldOf(fields, lengthField) == LengthFieldOf(fields[i..], lengthField)
    {
      if Some(fields[i].name) == lengthField || (lengthField.None? && EndsWithLength(fields[i].name)) {
        return Some(fields[i].name);
      }
    }
    r := None;
  }

  // ---------------------------------------------------------------- encode_payload

  method EncodePayload(judge: Judge, name: string, policies: Policies, s: Shape, values: Values)
    returns (r: Option<seq<byte>>)
    ensures r == EncodePayloadSpec(judge, name, policies, s, values)
  {
    hide EncodeFields, EncodeRecords, LengthAgrees, CommandOk, Tlv.DecodeSpec, Tlv.SerializeAll, VariantNamed;
    match s {
      case Fixed(part) =>
        r := EncodeFields(part.fields, values.fields);
      case Variants(_) =>
        r := EncodeVariantPayload(s, values);
      case Bounded(_, _, _, _) =>
        r := EncodeBoundedPayload(s, values);
      case Suffix(_, _, _, _, _) =>
        r := EncodeSuffixPayload(policies, s, values);
      case Tlvs(_, _) =>
        r := EncodeTlvPayload(policies, s, values);
    }
    if judge(name, values, None, None).Some? {
      r := None;
    }
  }

  method EncodeVariantPayload(s: Shape, values: Values) returns (r: Option<seq<byte>>)
    requires s.Variants?
    ensures r == EncodeVariant(s, values)
  {
    hide EncodeFields, VariantNamed;
    if values.variant.GetOr("") == "" {
      return None;
    }
    var v := FindNamed(s.variants, values.variant.value);
    r := if v.None? then None else EncodeFields(v.value.part.fields, values.fields);
  }

  method EncodeBoundedPayload(s: Shape, values: Values) returns (r: Option<seq<byte>>)
    requires s.Bounded?
    ensures r == EncodeBounded(s, values)
  {
    hide EncodeFields, EncodeRecords;
    if |values.records| > s.countMax {
      return None;
    }
    var prefix := values.prefix.GetOr(values.fields);
    if s.countField in prefix && prefix[s.countField] != Num(|values.records|) {
      return None;
    }
    prefix := prefix[s.countField := Num(|values.records|)];
    var output := EncodeFields(s.prefix.fields, prefix);
    if output.None? {
      return None;
    }
    r := AppendRecords(output.value, s.record.fields, values.records);
  }

  method EncodeSuffixPayload(policies: Policies, s: Shape, values: Values) returns (r: Option<seq<byte>>)
    requires s.Suffix?
    ensures r == EncodeSuffix(policies, s, values)
  {
    hide EncodeFields, LengthFieldOf, Tlv.DecodeSpec;
    var prefix := values.prefix.GetOr(values.fields);
    var output := EncodeFields(s.prefix.fields, prefix);
    var suffix := SuffixOf(s, values);
    if output.None? || suffix.None? || |suffix.value| > s.suffixMax {
      return None;
    }
    var lengthField := FindLengthField(s.prefix.fields, s.lengthField);
    if lengthField.Some? && lengthField.value in prefix && prefix[lengthField.value] != Num(|suffix.value|) {
      return None;
    }
    if s.command {
      var entries := Tlv.Decode(policies.command, suffix.value);
      if entries.Err? {
        return None;
      }
    }
    r := Some(output.value + suffix.value);
  }

  method EncodeTlvPayload(policies: Policies, s: Shape, values: Values) returns (r: Option<seq<byte>>)
    requires s.Tlvs?
    ensures r == EncodeTlvs(policies, s, values)
  {
    hide EncodeFields, Tlv.DecodeSpec, Tlv.SerializeAll;
    var prefix := values.prefix.GetOr(values.fields);
    var head := EncodeFields(s.prefix.fields, prefix);
    if head.None? {
      return None;
    }
    var output := AppendEntries(head.value, values.tlvs);
    if output.None? {
      return None;
    }
    var stream := output.value[|head.value|..];
    assert stream == Tlv.SerializeAll(values.tlvs);
    if |stream| > s.maxBytes {
      return None;
    }
    var entries := Tlv.Decode(policies.tlv, stream);
    r := if entries.Err? then None else output;
  }

  // ---------------------------------------------------------------- decode_payload

  method DecodePayload(judge: Judge, name: string, policies: Policies, s: Shape, data: seq<byte>)
    returns (r: Result<Values, Code>)
    requires ShapeOk(s)
    ensures r == DecodePayloadSpec(judge, name, policies, s, data)
  {
    hide DecodeFields, DecodeRecords, Tlv.DecodeSpec, PartOk, CountFieldOk, VariantSized, SmallestSize, LargestSize;
    var low, high := SizeBounds(s).0, SizeBounds(s).1;
    if !(low <= |data| <= high) {
      return Err(BadLength);
    }
    match s {
      case Fixed(part) =>
        var fields :- DecodeSlices(part.fields, data);
        r := Ok(Flat(fields));
      case Variants(variants) =>
        var v := FindSized(variants, |data|);
        if v.None? {
          return Err(BadLength);
        }
        var fields :- DecodeSlices(v.value.part.fields, data);
        r := Ok(Flat(fields).(variant := Some(v.value.name)));
      case Bounded(_, _, _, _) =>
        r := DecodeBoundedPayload(s, data);
      case Suffix(_, _, _, _, _) =>
        r := DecodeSuffixPayload(policies, s, data);
      case Tlvs(prefix, _) =>
        var fields :- DecodeSlices(prefix.fields, data[..prefix.size]);
        var entries :- Tlv.Decode(policies.tlv, data[prefix.size..]);
        r := Ok(Flat(fields).(tlvs := entries));
    }
    if r.Ok? && judge(name, r.value, None, None).Some? {
      r := Err(Semantic(judge(name, r.value, None, None).value));
    }
  }

  method DecodeBoundedPayload(s: Shape, data: seq<byte>) returns (r: Result<Values, Code>)
    requires s.Bounded? && s.prefix.size <= |data|
    ensures r == DecodeBounded(s, data)
  {
    hide DecodeFields, DecodeRecords;
    var prefix :- DecodeSlices(s.prefix.fields, data[..s.prefix.size]);
    if s.countField !in prefix || !prefix[s.countField].Num? || prefix[s.countField].n < 0 {
      return Err(SchemaFault);
    }
    var count := prefix[s.countField].n;
    if count > s.countMax {
      return Err(BadCount);
    }
    var expected := s.prefix.size + count * s.record.size;
    if expected != |data| {
      return Err(BadLength);
    }
    var records :- ReadRecords(s.record, data, s.prefix.size, count);
    r := Ok(Flat(prefix).(records := records));
  }

  method DecodeSuffixPayload(policies: Policies, s: Shape, data: seq<byte>) returns (r: Result<Values, Code>)
    requires s.Suffix? && s.prefix.size <= |data|
    ensures r == DecodeSuffix(policies, s, data)
  {
    hide DecodeFields, LengthFieldOf, Tlv.DecodeSpec;
    var result :- DecodeSlices(s.prefix.fields, data[..s.prefix.size]);
    var suffix := data[s.prefix.size..];
    var lengthField := FindLengthField(s.prefix.fields, s.lengthField);
    if lengthField.Some? && (lengthField.value !in result || result[lengthField.value] != Num(|suffix|)) {
      return Err(BadLength);
    }
    if s.command {
      var entries := Tlv.Decode(policies.command, suffix);
      if entries.Err? {
        return Err(entries.error);
      }
    }
    r := Ok(Flat(result[s.suffixName := Raw(suffix)]));
  }
}
