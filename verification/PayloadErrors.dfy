/** Which code a refused payload gets, and what an accepted one is read as, for each of the five kinds. */
module PayloadErrors {
  import opened Prelude
  import opened Complaints
  import opened Layout
  import opened LayoutErrors
  import opened Payload
  import opened PayloadCodec
  import PayloadProofs
  import Tlv

  // ---------------------------------------------------------------- size bounds

  /** No variant is shorter or longer than the bounds, and both are the size of some variant. */
  lemma {:induction false} BoundsReached(vs: seq<Variant>)
    requires vs != []
    ensures forall i :: 0 <= i < |vs| ==> SmallestSize(vs) <= vs[i].part.size <= LargestSize(vs)
    ensures exists i :: 0 <= i < |vs| && vs[i].part.size == SmallestSize(vs)
    ensures exists i :: 0 <= i < |vs| && vs[i].part.size == LargestSize(vs)
  {
    if |vs| > 1 {
      var rest := vs[1..];
      BoundsReached(rest);
      assert forall i :: 0 < i < |vs| ==> vs[i] == rest[i - 1];
      var low :| 0 <= low < |rest| && rest[low].part.size == SmallestSize(rest);
      var high :| 0 <= high < |rest| && rest[high].part.size == LargestSize(rest);
      assert vs[low + 1] == rest[low] && vs[high + 1] == rest[high];
    }
  }

  // ---------------------------------------------------------------- the parts of a payload

  function Front(data: seq<byte>, size: nat): seq<byte> {
    if size <= |data| then data[..size] else data
  }

  function Behind(data: seq<byte>, size: nat): seq<byte> {
    if size <= |data| then data[size..] else []
  }

  function Announced(record: Record, name: string): int {
    if name in record && record[name].Num? then record[name].n else 0
  }

  /** Record after record, in their order. */
  ghost function RecordsComplaint(record: Part, data: seq<byte>, count: nat): Option<Code>
    decreases count
  {
    if count == 0 then None
    else
      Then(FieldsComplaint(record.fields, Front(data, record.size)),
           RecordsComplaint(record, Behind(data, record.size), count - 1))
  }

  lemma {:induction false} RecordsComplain(record: Part, data: seq<byte>, count: nat)
    requires |data| == count * record.size
    ensures Of(DecodeRecords(record, data, count)) == RecordsComplaint(record, data, count)
    decreases count
  {
    if count > 0 {
      RecordFits(record.size, |data|, count);
      FieldsComplain(record.fields, data[..record.size]);
      RecordsComplain(record, data[record.size..], count - 1);
      hide DecodeFields, FieldsComplaint;
    }
  }

  /** Field `i` is the first one that announces the length of the suffix: by the name that the schema gives, or by
      its last seven characters when the schema gives none. */
  ghost predicate Announces(fields: seq<Field>, lengthField: Option<string>, i: nat) {
    && i < |fields|
    && Suits(fields[i].name, lengthField)
    && forall j: nat :: j < i ==> !Suits(fields[j].name, lengthField)
  }

  ghost predicate Suits(name: string, lengthField: Option<string>) {
    match lengthField
    case Some(given) => name == given
    case None => exists front: string :: name == front + "_length"
  }

  lemma SuitsMeaning(name: string, lengthField: Option<string>)
    ensures Suits(name, lengthField) <==> Some(name) == lengthField || (lengthField.None? && EndsWithLength(name))
  {
    if lengthField.None? && EndsWithLength(name) {
      assert name == name[..|name| - 7] + "_length";
    }
    if lengthField.None? && Suits(name, lengthField) {
      var front :| name == front + "_length";
      assert name[|name| - 7..] == "_length";
    }
  }

  lemma {:induction false} AnnouncerFound(fields: seq<Field>, lengthField: Option<string>)
    ensures var name := LengthFieldOf(fields, lengthField);
            if name.None? then forall i: nat :: !Announces(fields, lengthField, i)
            else exists i: nat :: Announces(fields, lengthField, i) && fields[i].name == name.value
  {
    if fields != [] {
      hide Suits, EndsWithLength;
      var rest := fields[1..];
      AnnouncerFound(rest, lengthField);
      SuitsMeaning(fields[0].name, lengthField);
      AnnouncesStep(fields, lengthField);
    }
  }

  lemma AnnouncesStep(fields: seq<Field>, lengthField: Option<string>)
    requires fields != []
    ensures Suits(fields[0].name, lengthField) <==> Announces(fields, lengthField, 0)
    ensures forall i: nat :: i > 0 ==>
              (Announces(fields, lengthField, i) <==>
                !Suits(fields[0].name, lengthField) && Announces(fields[1..], lengthField, i - 1))
  {
    hide Suits;
    var rest := fields[1..];
    assert forall i: nat :: 0 < i < |fields| ==> fields[i] == rest[i - 1];
    forall i: nat | i > 0
      ensures Announces(fields, lengthField, i) <==>
                !Suits(fields[0].name, lengthField) && Announces(rest, lengthField, i - 1)
    {
      if Announces(fields, lengthField, i) {
        assert forall j: nat :: j < i - 1 ==> rest[j] == fields[j + 1];
      }
    }
  }

  // ---------------------------------------------------------------- fixed payloads and variants

  /** A fixed payload has its size and acceptable fields. */
  lemma FixedDecided(policies: Policies, s: Shape, data: seq<byte>)
    requires ShapeOk(s) && s.Fixed?
    ensures var r := DecodeShape(policies, s, data);
            && Of(r) == Then(When(|data| != s.part.size, BadLength), FieldsComplaint(s.part.fields, data))
            && (r.Ok? ==> Ok(r.value.fields) == DecodeFields(s.part.fields, data)
                          && r.value == Values(r.value.fields, None, [], [], None))
  {
    hide DecodeFields, FieldsComplaint, PartOk;
    FieldsComplain(s.part.fields, data);
  }

  /** Variant `i` is the first one of this size. */
  ghost predicate OfSize(vs: seq<Variant>, size: nat, i: nat) {
    i < |vs| && vs[i].part.size == size && forall j: nat :: j < i ==> vs[j].part.size != size
  }

  lemma {:induction false} SizedFirst(vs: seq<Variant>, size: nat)
    ensures var v := VariantSized(vs, size);
            if v.None? then forall i: nat :: !OfSize(vs, size, i)
            else exists i: nat :: OfSize(vs, size, i) && vs[i] == v.value
  {
    if vs != [] {
      var rest := vs[1..];
      SizedFirst(rest, size);
      assert forall i: nat :: 0 < i < |vs| ==> vs[i] == rest[i - 1];
      if vs[0].part.size == size {
        assert OfSize(vs, size, 0);
      } else {
        forall i: nat | OfSize(vs, size, i) ensures i > 0 && OfSize(rest, size, i - 1) {
          assert forall j: nat :: j < i - 1 ==> rest[j] == vs[j + 1];
        }
        if i: nat :| OfSize(rest, size, i) {
          assert OfSize(vs, size, i + 1);
        }
      }
    }
  }

  lemma OneFirst(vs: seq<Variant>, size: nat, i: nat, j: nat)
    requires OfSize(vs, size, i) && OfSize(vs, size, j)
    ensures i == j
  {
  }

  lemma OutsideBounds(s: Shape, n: nat)
    requires ShapeOk(s) && s.Variants? && !WithinBounds(s, n)
    ensures forall i: nat :: !OfSize(s.variants, n, i)
  {
    hide PartOk;
    BoundsReached(s.variants);
  }

  lemma VariantUnfold(policies: Policies, s: Shape, data: seq<byte>)
    requires ShapeOk(s) && s.Variants?
    ensures DecodeShape(policies, s, data) == if WithinBounds(s, |data|) then DecodeVariant(s, data) else Err(BadLength)
  {
    hide ShapeOk, DecodeVariant, WithinBounds;
  }

  lemma VariantRead(s: Shape, data: seq<byte>)
    requires s.Variants?
    ensures var v, r := VariantSized(s.variants, |data|), DecodeVariant(s, data);
            && (v.None? ==> r == Err(BadLength))
            && (v.Some? ==> Of(r) == FieldsComplaint(v.value.part.fields, data))
            && (v.Some? && r.Ok? ==> Ok(r.value.fields) == DecodeFields(v.value.part.fields, data)
                                     && r.value == Values(r.value.fields, None, [], [], Some(v.value.name)))
  {
    hide DecodeFields, FieldsComplaint, VariantSized;
    var v := VariantSized(s.variants, |data|);
    if v.Some? {
      FieldsComplain(v.value.part.fields, data);
    }
  }

  /** A payload without a variant of its size is too short or too long. */
  lemma VariantUnknown(policies: Policies, s: Shape, data: seq<byte>)
    requires ShapeOk(s) && s.Variants?
    requires forall i: nat :: i < |s.variants| ==> s.variants[i].part.size != |data|
    ensures DecodeShape(policies, s, data) == Err(BadLength)
  {
    VariantUnfold(policies, s, data);
    VariantRead(s, data);
    SizedFirst(s.variants, |data|);
    hide *;
    NoneSized(s.variants, |data|);
  }

  lemma NoneSized(vs: seq<Variant>, size: nat)
    requires forall i: nat :: i < |vs| ==> vs[i].part.size != size
    ensures forall i: nat :: !OfSize(vs, size, i)
  {
  }

  /** Any other is decided by the fields of the first variant of its size, and carries its name. */
  lemma VariantDecided(policies: Policies, s: Shape, data: seq<byte>, i: nat)
    requires ShapeOk(s) && s.Variants? && OfSize(s.variants, |data|, i)
    ensures var r, v := DecodeShape(policies, s, data), s.variants[i];
            && Of(r) == FieldsComplaint(v.part.fields, data)
            && (r.Ok? ==> Ok(r.value.fields) == DecodeFields(v.part.fields, data)
                          && r.value == Values(r.value.fields, None, [], [], Some(v.name)))
  {
    VariantUnfold(policies, s, data);
    VariantRead(s, data);
    SizedFirst(s.variants, |data|);
    if !WithinBounds(s, |data|) {
      OutsideBounds(s, |data|);
    }
    forall j: nat | OfSize(s.variants, |data|, j) ensures i == j {
      OneFirst(s.variants, |data|, i, j);
    }
    hide DecodeShape, DecodeVariant, ShapeOk, WithinBounds, VariantSized, DecodeFields, FieldsComplaint;
  }

  // ---------------------------------------------------------------- a prefix and what follows it

  /** Complaints about the length of a payload, or about the fields of its prefix. */
  ghost function PrefixComplaint(prefix: Part, longest: int, data: seq<byte>): Option<Code> {
    Then(When(|data| < prefix.size || |data| > longest, BadLength), FieldsComplaint(prefix.fields, Front(data, prefix.size)))
  }

  function PrefixOf(prefix: Part, data: seq<byte>): Record {
    var fields := DecodeFields(prefix.fields, Front(data, prefix.size));
    if fields.Ok? then fields.value else map[]
  }

  lemma PrefixRead(prefix: Part, longest: int, data: seq<byte>)
    ensures if |data| < prefix.size || |data| > longest then PrefixComplaint(prefix, longest, data) == Some(BadLength)
            else PrefixComplaint(prefix, longest, data) == Of(DecodeFields(prefix.fields, data[..prefix.size]))
    ensures prefix.size <= |data| && DecodeFields(prefix.fields, data[..prefix.size]).Ok? ==>
              DecodeFields(prefix.fields, data[..prefix.size]) == Ok(PrefixOf(prefix, data))
  {
    FieldsComplain(prefix.fields, Front(data, prefix.size));
    hide DecodeFields, FieldsComplaint;
  }

  /** As many records as the prefix announces. */
  ghost function BoundedComplaint(s: Shape, data: seq<byte>, record: Record): Option<Code>
    requires s.Bounded?
  {
    var n := Announced(record, s.countField);
    Then(When(n > s.countMax, BadCount),
    Then(When(s.prefix.size + n * s.record.size != |data|, BadLength),
         if n < 0 then None else RecordsComplaint(s.record, Behind(data, s.prefix.size), n)))
  }

  /** A suffix of the announced length, if one is announced, that is a stream of entries when the payload is a
      command. */
  ghost function SuffixComplaint(policies: Policies, s: Shape, data: seq<byte>, record: Record): Option<Code>
    requires s.Suffix?
  {
    var suffix, fields := Behind(data, s.prefix.size), s.prefix.fields;
    Then(When(exists i: nat :: Announces(fields, s.lengthField, i) && Lookup(record, fields[i].name) != Some(Num(|suffix|)),
              BadLength),
         if s.command then Of(Tlv.DecodeSpec(policies.command, suffix)) else None)
  }

  // ---------------------------------------------------------------- bounded payloads

  lemma {:induction false} EachFits(fields: seq<Field>, values: Record, i: nat)
    requires EncodeFields(fields, values).Some? && i < |fields|
    ensures EncodeField(fields[i], Lookup(values, fields[i].name)).Some?
  {
    if i > 0 {
      EachFits(fields[1..], values, i - 1);
    }
    hide EncodeField;
  }

  /** The announced number is never negative. */
  lemma CountRead(s: Shape, front: seq<byte>, record: Record)
    requires s.Bounded? && ShapeOk(s) && |front| == s.prefix.size
    requires DecodeFields(s.prefix.fields, front) == Ok(record)
    ensures Lookup(record, s.countField) == Some(Num(Announced(record, s.countField))) && Announced(record, s.countField) >= 0
  {
    hide DecodeFields, EncodeFields, PartOk, WireNames, ReservedZero;
    PayloadProofs.PartDecoded(s.prefix, front, record);
    var fields := s.prefix.fields;
    var i :| 0 <= i < |fields| && fields[i].name == s.countField && fields[i].kind.Scalar? && !fields[i].kind.signed
             && fields[i].kind.width <= 4;
    EachFits(fields, record, i);
    NameListed(fields, i);
    CountFits(fields[i], Lookup(record, s.countField));
  }

  lemma NameListed(fields: seq<Field>, i: nat)
    requires i < |fields|
    ensures fields[i].name in WireNames(fields)
  {
  }

  lemma CountFits(f: Field, value: Option<FieldValue>)
    requires f.kind.Scalar? && !f.kind.signed && value.Some? && EncodeField(f, value).Some?
    ensures value.value.Num? && value.value.n >= 0
  {
  }

  lemma BoundedUnfold(policies: Policies, s: Shape, data: seq<byte>)
    requires ShapeOk(s) && s.Bounded?
    ensures DecodeShape(policies, s, data) ==
            if s.prefix.size <= |data| <= s.prefix.size + s.record.size * s.countMax then DecodeBounded(s, data)
            else Err(BadLength)
  {
    hide PartOk, CountFieldOk, DecodeBounded;
  }

  lemma CountedRead(s: Shape, data: seq<byte>, record: Record)
    requires s.Bounded? && ShapeOk(s) && s.prefix.size <= |data|
    requires DecodeFields(s.prefix.fields, data[..s.prefix.size]) == Ok(record)
    ensures var r := DecodeBounded(s, data);
            && Of(r) == BoundedComplaint(s, data, record)
            && (r.Ok? ==>
                  && r.value == Values(record, None, r.value.records, [], None)
                  && Lookup(record, s.countField) == Some(Num(|r.value.records|))
                  && s.prefix.size + |r.value.records| * s.record.size == |data|
                  && DecodeRecords(s.record, data[s.prefix.size..], |r.value.records|) == Ok(r.value.records))
  {
    CountRead(s, data[..s.prefix.size], record);
    var n := Announced(record, s.countField);
    if s.prefix.size + n * s.record.size == |data| {
      RecordsComplain(s.record, data[s.prefix.size..], n);
      CountKept(s.record, data[s.prefix.size..], n);
    }
    hide DecodeFields, DecodeRecords, RecordsComplaint, ShapeOk, Announced;
  }

  lemma {:induction false} CountKept(record: Part, data: seq<byte>, count: nat)
    requires |data| == count * record.size
    ensures DecodeRecords(record, data, count).Ok? ==> |DecodeRecords(record, data, count).value| == count
    decreases count
  {
    if count > 0 {
      RecordFits(record.size, |data|, count);
      CountKept(record, data[record.size..], count - 1);
      hide DecodeFields;
    }
  }

  /** A bounded payload is a prefix and exactly the announced records, each acceptable. */
  lemma BoundedDecided(policies: Policies, s: Shape, data: seq<byte>)
    requires ShapeOk(s) && s.Bounded?
    ensures var r, record := DecodeShape(policies, s, data), PrefixOf(s.prefix, data);
            && Of(r) == Then(PrefixComplaint(s.prefix, s.prefix.size + s.record.size * s.countMax, data),
                             BoundedComplaint(s, data, record))
            && (r.Ok? ==>
                  && r.value == Values(record, None, r.value.records, [], None)
                  && Lookup(record, s.countField) == Some(Num(|r.value.records|))
                  && s.prefix.size + |r.value.records| * s.record.size == |data|
                  && DecodeRecords(s.record, data[s.prefix.size..], |r.value.records|) == Ok(r.value.records))
  {
    hide DecodeShape, DecodeBounded, ShapeOk, DecodeFields, DecodeRecords, PrefixComplaint, BoundedComplaint, PrefixOf;
    BoundedUnfold(policies, s, data);
    PrefixRead(s.prefix, s.prefix.size + s.record.size * s.countMax, data);
    if s.prefix.size <= |data| {
      var fields := DecodeFields(s.prefix.fields, data[..s.prefix.size]);
      if fields.Ok? {
        CountedRead(s, data, fields.value);
      } else {
        BoundedFront(s, data);
      }
    }
  }

  lemma BoundedFront(s: Shape, data: seq<byte>)
    requires s.Bounded? && s.prefix.size <= |data| && DecodeFields(s.prefix.fields, data[..s.prefix.size]).Err?
    ensures Of(DecodeBounded(s, data)) == Of(DecodeFields(s.prefix.fields, data[..s.prefix.size]))
  {
    hide DecodeFields;
  }

  // ---------------------------------------------------------------- payloads with a suffix

  lemma SuffixUnfold(policies: Policies, s: Shape, data: seq<byte>)
    requires ShapeOk(s) && s.Suffix?
    ensures DecodeShape(policies, s, data) ==
            if s.prefix.size <= |data| <= s.prefix.size + s.suffixMax then DecodeSuffix(policies, s, data)
            else Err(BadLength)
  {
    hide PartOk, DecodeSuffix;
  }

  lemma LengthMeaning(s: Shape, record: Record, length: nat)
    requires s.Suffix? && WireNames(s.prefix.fields) <= record.Keys
    ensures LengthAgrees(s, record, Raw([]), length) <==>
              !exists i: nat :: Announces(s.prefix.fields, s.lengthField, i)
                                && Lookup(record, s.prefix.fields[i].name) != Some(Num(length))
  {
    var fields := s.prefix.fields;
    AnnouncerFound(fields, s.lengthField);
    hide LengthFieldOf, WireNames;
    var name := LengthFieldOf(fields, s.lengthField);
    if name.Some? {
      var i: nat :| Announces(fields, s.lengthField, i) && fields[i].name == name.value;
      NameListed(fields, i);
      forall j: nat | Announces(fields, s.lengthField, j) ensures i == j {
        OneAnnouncer(fields, s.lengthField, i, j);
      }
    }
    hide Announces;
  }

  lemma OneAnnouncer(fields: seq<Field>, lengthField: Option<string>, i: nat, j: nat)
    requires Announces(fields, lengthField, i) && Announces(fields, lengthField, j)
    ensures i == j
  {
    hide Suits;
  }

  lemma SuffixRead(policies: Policies, s: Shape, data: seq<byte>, record: Record)
    requires s.Suffix? && s.prefix.size <= |data|
    requires DecodeFields(s.prefix.fields, data[..s.prefix.size]) == Ok(record)
    ensures var r := DecodeSuffix(policies, s, data);
            && Of(r) == SuffixComplaint(policies, s, data, record)
            && (r.Ok? ==> r == Ok(Values(record[s.suffixName := Raw(data[s.prefix.size..])], None, [], [], None)))
  {
    DecodedNames(s.prefix.fields, data[..s.prefix.size]);
    LengthMeaning(s, record, |data| - s.prefix.size);
    hide DecodeFields, LengthAgrees, Announces, WireNames, Tlv.DecodeSpec;
  }

  lemma SuffixFront(policies: Policies, s: Shape, data: seq<byte>)
    requires s.Suffix? && s.prefix.size <= |data| && DecodeFields(s.prefix.fields, data[..s.prefix.size]).Err?
    ensures Of(DecodeSuffix(policies, s, data)) == Of(DecodeFields(s.prefix.fields, data[..s.prefix.size]))
  {
    hide DecodeFields;
  }

  /** A payload with a suffix is a prefix and bytes of the length it announces. */
  lemma SuffixDecided(policies: Policies, s: Shape, data: seq<byte>)
    requires ShapeOk(s) && s.Suffix?
    ensures var r, record := DecodeShape(policies, s, data), PrefixOf(s.prefix, data);
            && Of(r) == Then(PrefixComplaint(s.prefix, s.prefix.size + s.suffixMax, data),
                             SuffixComplaint(policies, s, data, record))
            && (r.Ok? ==> s.prefix.size <= |data|
                          && r == Ok(Values(record[s.suffixName := Raw(data[s.prefix.size..])], None, [], [], None)))
  {
    hide DecodeShape, DecodeSuffix, ShapeOk, DecodeFields, PrefixComplaint, SuffixComplaint, PrefixOf;
    SuffixUnfold(policies, s, data);
    PrefixRead(s.prefix, s.prefix.size + s.suffixMax, data);
    if s.prefix.size <= |data| {
      var fields := DecodeFields(s.prefix.fields, data[..s.prefix.size]);
      if fields.Ok? {
        SuffixRead(policies, s, data, fields.value);
      } else {
        SuffixFront(policies, s, data);
      }
    }
  }

  // ---------------------------------------------------------------- payloads with entries

  lemma TlvsUnfold(policies: Policies, s: Shape, data: seq<byte>)
    requires ShapeOk(s) && s.Tlvs?
    ensures DecodeShape(policies, s, data) ==
            if s.prefix.size <= |data| <= s.prefix.size + s.maxBytes then DecodeTlvs(policies, s, data)
            else Err(BadLength)
  {
    hide PartOk, DecodeTlvs;
  }

  /** A payload with entries is a prefix and an acceptable stream. */
  lemma TlvsDecided(policies: Policies, s: Shape, data: seq<byte>)
    requires ShapeOk(s) && s.Tlvs?
    ensures var r, record := DecodeShape(policies, s, data), PrefixOf(s.prefix, data);
            && Of(r) == Then(PrefixComplaint(s.prefix, s.prefix.size + s.maxBytes, data),
                             Of(Tlv.DecodeSpec(policies.tlv, Behind(data, s.prefix.size))))
            && (r.Ok? ==> r.value == Values(record, None, [], r.value.tlvs, None)
                          && Tlv.DecodeSpec(policies.tlv, Behind(data, s.prefix.size)) == Ok(r.value.tlvs))
  {
    hide DecodeShape, ShapeOk, DecodeFields, PrefixComplaint, PrefixOf, Tlv.DecodeSpec;
    TlvsUnfold(policies, s, data);
    PrefixRead(s.prefix, s.prefix.size + s.maxBytes, data);
  }

  // ---------------------------------------------------------------- the semantic policy

  /** The semantic policy has the last word. */
  lemma PayloadDecided(judge: Judge, name: string, policies: Policies, s: Shape, data: seq<byte>)
    requires ShapeOk(s)
    ensures var r := DecodePayloadSpec(judge, name, policies, s, data);
            match DecodeShape(policies, s, data)
            case Err(e) => r == Err(e)
            case Ok(values) =>
              match judge(name, values, None, None)
              case None => r == Ok(values)
              case Some(reason) => r == Err(Semantic(reason))
  {
    hide DecodeShape, ShapeOk;
  }

  // ---------------------------------------------------------------- encoded payloads

  /** Variant `i` is the first one of this name. */
  ghost predicate Called(vs: seq<Variant>, name: string, i: nat) {
    i < |vs| && vs[i].name == name && forall j: nat :: j < i ==> vs[j].name != name
  }

  lemma {:induction false} NamedFirst(vs: seq<Variant>, name: string)
    ensures var v := VariantNamed(vs, name);
            if v.None? then forall i: nat :: !Called(vs, name, i)
            else exists i: nat :: Called(vs, name, i) && vs[i] == v.value
  {
    if vs != [] {
      var rest := vs[1..];
      NamedFirst(rest, name);
      assert forall i: nat :: 0 < i < |vs| ==> vs[i] == rest[i - 1];
      if vs[0].name == name {
        assert Called(vs, name, 0);
      } else {
        forall i: nat | Called(vs, name, i) ensures i > 0 && Called(rest, name, i - 1) {
          assert forall j: nat :: j < i - 1 ==> rest[j] == vs[j + 1];
        }
        if i: nat :| Called(rest, name, i) {
          assert Called(vs, name, i + 1);
        }
      }
    }
  }

  lemma OneCalled(vs: seq<Variant>, name: string, i: nat, j: nat)
    requires Called(vs, name, i) && Called(vs, name, j)
    ensures i == j
  {
  }

  /** The values of a prefix: those given apart, or else those of the payload. */
  function Given(values: Values): Record {
    if values.prefix.Some? then values.prefix.value else values.fields
  }

  /** What a suffix may be: bytes, or nothing at all. */
  ghost predicate Suffixed(s: Shape, values: Values, suffix: seq<byte>)
    requires s.Suffix?
  {
    if s.suffixName in values.fields then values.fields[s.suffixName] == Raw(suffix) else suffix == []
  }

  /** The bytes spell the values, by the kind of the payload. */
  ghost predicate Spells(policies: Policies, s: Shape, values: Values, head: seq<byte>, tail: seq<byte>) {
    match s
    case Fixed(part) => EncodeFields(part.fields, values.fields) == Some(head) && tail == []
    case Variants(vs) =>
      && tail == []
      && exists i: nat :: values.variant.Some? && values.variant.value != "" && Called(vs, values.variant.value, i)
                          && EncodeFields(vs[i].part.fields, values.fields) == Some(head)
    case Bounded(prefix, record, countField, countMax) =>
      && |values.records| <= countMax
      && (countField in Given(values) ==> Given(values)[countField] == Num(|values.records|))
      && EncodeFields(prefix.fields, Given(values)[countField := Num(|values.records|)]) == Some(head)
      && EncodeRecords(record.fields, values.records) == Some(tail)
    case Suffix(prefix, _, suffixMax, lengthField, command) =>
      && EncodeFields(prefix.fields, Given(values)) == Some(head)
      && Suffixed(s, values, tail)
      && |tail| <= suffixMax
      && (forall i: nat :: Announces(prefix.fields, lengthField, i) && prefix.fields[i].name in Given(values) ==>
            Given(values)[prefix.fields[i].name] == Num(|tail|))
      && (command ==> Tlv.DecodeSpec(policies.command, tail).Ok?)
    case Tlvs(prefix, maxBytes) =>
      && EncodeFields(prefix.fields, Given(values)) == Some(head)
      && (forall i :: 0 <= i < |values.tlvs| ==> values.tlvs[i].kind < 0x1_0000 && |values.tlvs[i].value| < 0x1_0000)
      && tail == Tlv.SerializeAll(values.tlvs)
      && |tail| <= maxBytes
      && Tlv.DecodeSpec(policies.tlv, tail).Ok?
  }

  lemma LengthGiven(s: Shape, record: Record, length: nat)
    requires s.Suffix?
    ensures LengthAgrees(s, record, Num(length), length) <==>
              forall i: nat :: Announces(s.prefix.fields, s.lengthField, i) && s.prefix.fields[i].name in record ==>
                record[s.prefix.fields[i].name] == Num(length)
  {
    var fields := s.prefix.fields;
    AnnouncerFound(fields, s.lengthField);
    hide LengthFieldOf;
    var name := LengthFieldOf(fields, s.lengthField);
    if name.Some? {
      var i: nat :| Announces(fields, s.lengthField, i) && fields[i].name == name.value;
      forall j: nat | Announces(fields, s.lengthField, j) ensures i == j {
        OneAnnouncer(fields, s.lengthField, i, j);
      }
    }
  }

  lemma VariantSpelt(s: Shape, values: Values, data: seq<byte>)
    requires s.Variants?
    ensures EncodeVariant(s, values) == Some(data) <==>
              exists i: nat :: values.variant.Some? && values.variant.value != "" && Called(s.variants, values.variant.value, i)
                               && EncodeFields(s.variants[i].part.fields, values.fields) == Some(data)
  {
    hide VariantNamed, EncodeFields, Called;
    if values.variant.Some? && values.variant.value != "" {
      var name := values.variant.value;
      NamedFirst(s.variants, name);
      forall i: nat, j: nat | Called(s.variants, name, i) && Called(s.variants, name, j) ensures i == j {
        OneCalled(s.variants, name, i, j);
      }
    }
  }

  lemma ChainMeaning(a: Option<seq<byte>>, b: Option<seq<byte>>, data: seq<byte>)
    ensures Chain(a, b) == Some(data) <==> exists head, tail :: a == Some(head) && b == Some(tail) && data == head + tail
  {
    if a.Some? && b.Some? {
      assert a == Some(a.value) && b == Some(b.value);
    }
  }

  lemma BoundedSpelt(policies: Policies, s: Shape, values: Values, data: seq<byte>)
    requires s.Bounded?
    ensures EncodeBounded(s, values) == Some(data) <==>
              exists head, tail :: Spells(policies, s, values, head, tail) && data == head + tail
  {
    var prefix := CountedPrefix(s, values);
    hide EncodeFields, EncodeRecords, Chain;
    if prefix.Some? {
      ChainMeaning(EncodeFields(s.prefix.fields, prefix.value), EncodeRecords(s.record.fields, values.records), data);
    }
  }

  lemma SuffixSpelt(policies: Policies, s: Shape, values: Values, data: seq<byte>)
    requires s.Suffix?
    ensures EncodeSuffix(policies, s, values) == Some(data) <==>
              exists head, tail :: Spells(policies, s, values, head, tail) && data == head + tail
  {
    SuffixMeaning(s, values);
    var suffix := SuffixOf(s, values);
    hide EncodeFields, LengthAgrees, Announces, Suffixed, SuffixOf, Tlv.DecodeSpec;
    if suffix.Some? {
      LengthGiven(s, Given(values), |suffix.value|);
      var head := EncodeFields(s.prefix.fields, Given(values));
      if head.Some? {
        assert Spells(policies, s, values, head.value, suffix.value) <==> EncodeSuffix(policies, s, values).Some?;
      }
    }
  }

  lemma SuffixMeaning(s: Shape, values: Values)
    requires s.Suffix?
    ensures SuffixOf(s, values).None? ==> forall suffix :: !Suffixed(s, values, suffix)
    ensures SuffixOf(s, values).Some? ==>
              forall suffix :: Suffixed(s, values, suffix) <==> suffix == SuffixOf(s, values).value
  {
  }

  lemma TlvsSpelt(policies: Policies, s: Shape, values: Values, data: seq<byte>)
    requires s.Tlvs?
    ensures EncodeTlvs(policies, s, values) == Some(data) <==>
              exists head, tail :: Spells(policies, s, values, head, tail) && data == head + tail
  {
    hide EncodeFields, Tlv.DecodeSpec, Tlv.SerializeAll;
    var head := EncodeFields(s.prefix.fields, Given(values));
    if head.Some? {
      assert Spells(policies, s, values, head.value, Tlv.SerializeAll(values.tlvs)) <==>
               EncodeTlvs(policies, s, values).Some?;
    }
  }

  lemma FlatSpelt(policies: Policies, s: Shape, values: Values, data: seq<byte>)
    requires s.Fixed? || s.Variants?
    ensures EncodeShape(policies, s, values) == Some(data) <==>
              exists head, tail :: Spells(policies, s, values, head, tail) && data == head + tail
  {
    if s.Variants? {
      VariantSpelt(s, values, data);
    }
    hide EncodeFields, EncodeVariant, Called;
    assert data == data + [];
    assert EncodeShape(policies, s, values) == Some(data) <==> Spells(policies, s, values, data, []);
    forall head, tail | Spells(policies, s, values, head, tail) && data == head + tail ensures head == data && tail == [] {
      assert head + [] == head;
    }
  }

  /** A payload is encoded, and as these bytes, exactly when the semantic policy accepts it and the bytes spell it: its
      fields, the fields of its variant, or a prefix and the counted records, a fitting suffix or an acceptable
      stream. */
  lemma PayloadEncoded(judge: Judge, name: string, policies: Policies, s: Shape, values: Values, data: seq<byte>)
    ensures EncodePayloadSpec(judge, name, policies, s, values) == Some(data) <==>
              && judge(name, values, None, None) == None
              && exists head, tail :: Spells(policies, s, values, head, tail) && data == head + tail
  {
    hide Spells, EncodeBounded, EncodeSuffix, EncodeTlvs, EncodeVariant, EncodeFields;
    match s
    case Fixed(_) => FlatSpelt(policies, s, values, data);
    case Variants(_) => FlatSpelt(policies, s, values, data);
    case Bounded(_, _, _, _) => BoundedSpelt(policies, s, values, data);
    case Suffix(_, _, _, _, _) => SuffixSpelt(policies, s, values, data);
    case Tlvs(_, _) => TlvsSpelt(policies, s, values, data);
  }

  // ---------------------------------------------------------------- which shapes a schema may have

  /** Whole fields, within the payload limit, and a count that its field can hold without a sign. */
  lemma ShapeMeaning(s: Shape)
    ensures ShapeOk(s) <==>
              match s
              case Fixed(part) => IsLayout(part.fields, part.size) && part.size <= 208
              case Variants(vs) =>
                |vs| > 0 && forall i :: 0 <= i < |vs| ==> IsLayout(vs[i].part.fields, vs[i].part.size) && vs[i].part.size <= 208
              case Bounded(prefix, record, countField, countMax) =>
                && IsLayout(prefix.fields, prefix.size) && IsLayout(record.fields, record.size)
                && prefix.size + record.size * countMax <= 208
                && exists i :: 0 <= i < |prefix.fields| && prefix.fields[i].name == countField
                               && exists w :: 0 <= w <= 4 && prefix.fields[i].kind == Scalar(w, false)
              case Suffix(prefix, _, suffixMax, _, _) => IsLayout(prefix.fields, prefix.size) && prefix.size + suffixMax <= 208
              case Tlvs(prefix, maxBytes) => IsLayout(prefix.fields, prefix.size) && prefix.size + maxBytes <= 208
  {
    hide IsLayout;
    if s.Bounded? && CountFieldOk(s.prefix.fields, s.countField) {
      var fields := s.prefix.fields;
      var i :| 0 <= i < |fields| && fields[i].name == s.countField && fields[i].kind.Scalar?
               && !fields[i].kind.signed && fields[i].kind.width <= 4;
      assert fields[i].kind == Scalar(fields[i].kind.width, false);
    }
  }
}
