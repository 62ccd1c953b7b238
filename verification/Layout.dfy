/** Field layouts of the frame protocol: validation, encoding and decoding of one flat record, after
 *  `_validate_fields`, `_encode_fields` and `_decode_fields` in tools/generate_protocol.py. */
module Layout {
  import opened Prelude

  /** A scalar of 1, 2, 4 or 8 little-endian bytes, a byte string, or a type the schema does not know. */
  datatype Kind = Scalar(width: nat, signed: bool) | Blob(length: int) | Unknown

  datatype Field = Field(name: string, cName: Option<string>, kind: Kind, offset: int, reserved: bool)

  datatype FieldValue = Num(n: int) | Raw(bytes: seq<byte>)

  type Record = map<string, FieldValue>

  /** The codes of `ProtocolDecodeError`; `SchemaFault` stands for a `SchemaError` about a field type. */
  datatype Code =
    | BadLength | BadReserved | BadMagic | IncompatibleMajor | BadFlags | BadPriority | BadCrc
    | UnsupportedMessage | ContextRequired | BadCount | UnsupportedTlv | DuplicateTlv | BadCorrelation
    | BadSession | Unauthenticated | SessionMismatch | SessionRequired | UnauthorizedSender
    | UnauthorizedReceiver | InvalidState | BadFragment | Semantic(reason: string) | SchemaFault

  // ---------------------------------------------------------------- sizes and names

  predicate Sized(kind: Kind) {
    match kind
    case Scalar(width, _) => width == 1 || width == 2 || width == 4 || width == 8
    case Blob(length) => length > 0
    case Unknown => false
  }

  function Size(kind: Kind): (n: nat)
    requires Sized(kind)
    ensures n > 0
  {
    match kind
    case Scalar(width, _) => width
    case Blob(length) => length
  }

  predicate Letter(c: char) {
    'a' <= c <= 'z' || 'A' <= c <= 'Z' || c == '_'
  }

  predicate IsIdentifier(s: string) {
    && s != []
    && Letter(s[0])
    && forall i :: 0 <= i < |s| ==> Letter(s[i]) || '0' <= s[i] <= '9'
  }

  function CName(f: Field): string {
    if f.cName.Some? then f.cName.value
    else if f.kind.Scalar? && f.kind.width > 1 then f.name + "_le" else f.name
  }

  function Lower(c: char): char {
    if 'A' <= c <= 'Z' then c - 'A' + 'a' else c
  }

  predicate NamedReserved(name: string) {
    |name| >= 8 && seq(8, i requires 0 <= i < 8 => Lower(name[i])) == "reserved"
  }

  // ---------------------------------------------------------------- layouts

  /** Each field starts where the previous one ends. */
  predicate Contiguous(fields: seq<Field>, start: nat) {
    if fields == [] then true
    else
      && Sized(fields[0].kind)
      && fields[0].offset == start
      && Contiguous(fields[1..], start + Size(fields[0].kind))
  }

  function End(fields: seq<Field>, start: nat): (end: nat)
    requires Contiguous(fields, start)
    ensures end >= start
    decreases |fields|
  {
    if fields == [] then start else End(fields[1..], start + Size(fields[0].kind))
  }

  predicate WellNamed(f: Field) {
    && IsIdentifier(f.name)
    && IsIdentifier(CName(f))
    && (f.reserved ==> NamedReserved(f.name))
  }

  predicate DistinctNames(fields: seq<Field>) {
    forall i, j :: 0 <= i < j < |fields| ==> fields[i].name != fields[j].name
  }

  predicate DistinctCNames(fields: seq<Field>) {
    forall i, j :: 0 <= i < j < |fields| ==> CName(fields[i]) != CName(fields[j])
  }

  predicate NamesClean(fields: seq<Field>) {
    && (forall i :: 0 <= i < |fields| ==> WellNamed(fields[i]))
    && DistinctNames(fields)
    && DistinctCNames(fields)
  }

  predicate IsLayout(fields: seq<Field>, size: nat) {
    NamesClean(fields) && Contiguous(fields, 0) && End(fields, 0) == size
  }

  function WireNames(fields: seq<Field>): set<string> {
    set i | 0 <= i < |fields| :: fields[i].name
  }

  function CNames(fields: seq<Field>): set<string> {
    set i | 0 <= i < |fields| :: CName(fields[i])
  }

  /** One more field keeps the names clean exactly when it is well named and repeats neither name. */
  lemma NamesCleanStep(fields: seq<Field>, i: nat)
    requires i < |fields|
    ensures WireNames(fields[..i + 1]) == WireNames(fields[..i]) + {fields[i].name}
    ensures CNames(fields[..i + 1]) == CNames(fields[..i]) + {CName(fields[i])}
    ensures NamesClean(fields[..i + 1]) <==>
              && NamesClean(fields[..i]) && WellNamed(fields[i])
              && fields[i].name !in WireNames(fields[..i]) && CName(fields[i]) !in CNames(fields[..i])
  {
    hide WellNamed, CName;
    var s, t, f := fields[..i], fields[..i + 1], fields[i];
    assert t == s + [f];
    if NamesClean(t) {
      assert forall j :: 0 <= j < i ==> t[j] == s[j];
    }
    if NamesClean(s) && WellNamed(f) && f.name !in WireNames(s) && CName(f) !in CNames(s) {
      forall j, k | 0 <= j < k < |t| ensures t[j].name != t[k].name && CName(t[j]) != CName(t[k]) {
        assert t[j] == s[j] && s[j].name in WireNames(s) && CName(s[j]) in CNames(s);
        assert k < i ==> t[k] == s[k];
      }
    }
  }

  lemma PrefixClean(fields: seq<Field>, i: nat)
    requires i <= |fields| && NamesClean(fields)
    ensures NamesClean(fields[..i])
  {
    hide WellNamed, CName;
  }

  method ValidateFields(fields: seq<Field>, size: nat) returns (ok: bool)
    ensures ok <==> IsLayout(fields, size)
  {
    hide *;
    var cursor: nat := 0;
    var wireNames: set<string>, cNames: set<string> := {}, {};
    NoFields(cursor);
    assert fields[0..] == fields && fields[..0] == [] && fields[..|fields|] == fields && fields[|fields|..] == [];
    for i := 0 to |fields|
      invariant Contiguous(fields, 0) <==> Contiguous(fields[i..], cursor)
      invariant Contiguous(fields, 0) ==> End(fields, 0) == End(fields[i..], cursor)
      invariant wireNames == WireNames(fields[..i]) && cNames == CNames(fields[..i])
      invariant NamesClean(fields[..i])
    {
      var field := fields[i];
      ContiguousTail(fields, i, cursor);
      NamesCleanStep(fields, i);
      if !WellNamed(field) || field.name in wireNames || CName(field) in cNames {
        NotClean(fields, i + 1, size);
        return false;
      }
      if field.offset != cursor || !Sized(field.kind) {
        LayoutParts(fields, size);
        return false;
      }
      wireNames := wireNames + {field.name};
      cNames := cNames + {CName(field)};
      cursor := cursor + Size(field.kind);
    }
    NoFields(cursor);
    LayoutParts(fields, size);
    ok := cursor == size;
  }

  lemma NoFields(cursor: nat)
    ensures Contiguous([], cursor) && End([], cursor) == cursor
    ensures NamesClean([]) && WireNames([]) == {} && CNames([]) == {}
  {
  }

  lemma LayoutParts(fields: seq<Field>, size: nat)
    ensures IsLayout(fields, size) <==> NamesClean(fields) && Contiguous(fields, 0) && End(fields, 0) == size
  {
    hide NamesClean, Contiguous, End;
  }

  lemma ContiguousTail(fields: seq<Field>, i: nat, cursor: nat)
    requires i < |fields|
    ensures Contiguous(fields[i..], cursor) <==>
              && Sized(fields[i].kind) && fields[i].offset == cursor
              && Contiguous(fields[i + 1..], cursor + Size(fields[i].kind))
    ensures Contiguous(fields[i..], cursor) ==>
              End(fields[i..], cursor) == End(fields[i + 1..], cursor + Size(fields[i].kind))
  {
    hide Sized;
    assert fields[i..][0] == fields[i] && fields[i..][1..] == fields[i + 1..];
  }

  lemma NotClean(fields: seq<Field>, i: nat, size: nat)
    requires i <= |fields| && !NamesClean(fields[..i])
    ensures !IsLayout(fields, size)
  {
    hide NamesClean;
    if NamesClean(fields) {
      PrefixClean(fields, i);
    }
  }

  /** Position `p` belongs to field `i`. */
  predicate Covers(fields: seq<Field>, i: nat, p: nat) {
    i < |fields| && Sized(fields[i].kind) && fields[i].offset <= p < fields[i].offset + Size(fields[i].kind)
  }

  ghost predicate Covered(fields: seq<Field>, p: nat) {
    exists i: nat :: Covers(fields, i, p)
  }

  /** The fields of a layout partition its bytes: every position lies in exactly one field, and no
      field reaches outside. */
  lemma {:induction false} FieldsTile(fields: seq<Field>, start: nat)
    requires Contiguous(fields, start)
    ensures forall p: nat :: start <= p < End(fields, start) <==> Covered(fields, p)
    ensures forall p: nat, i: nat, j: nat :: Covers(fields, i, p) && Covers(fields, j, p) ==> i == j
    decreases |fields|
  {
    if fields != [] {
      var middle, rest := start + Size(fields[0].kind), fields[1..];
      FieldsTile(rest, middle);
      forall p: nat ensures start <= p < End(fields, start) <==> Covered(fields, p) {
        TileStep(fields, start, p);
      }
      forall p: nat, i: nat, j: nat | Covers(fields, i, p) && Covers(fields, j, p) ensures i == j {
        ShiftCover(fields, i, p);
        ShiftCover(fields, j, p);
        if i == 0 || j == 0 {
          assert Covers(fields, 0, p) && p < middle;
          assert !Covered(rest, p);
        }
      }
    }
  }

  lemma ShiftCover(fields: seq<Field>, i: nat, p: nat)
    requires fields != []
    ensures i > 0 ==> (Covers(fields, i, p) <==> Covers(fields[1..], i - 1, p))
  {
  }

  lemma TileStep(fields: seq<Field>, start: nat, p: nat)
    requires fields != [] && Contiguous(fields, start)
    requires start + Size(fields[0].kind) <= p < End(fields[1..], start + Size(fields[0].kind)) <==> Covered(fields[1..], p)
    ensures start <= p < End(fields, start) <==> Covered(fields, p)
  {
    var middle, rest := start + Size(fields[0].kind), fields[1..];
    if start <= p < middle {
      assert Covers(fields, 0, p);
    } else if middle <= p < End(fields, start) {
      var i: nat :| Covers(rest, i, p);
      ShiftCover(fields, i + 1, p);
      assert Covers(fields, i + 1, p);
    }
    if Covered(fields, p) {
      var i: nat :| Covers(fields, i, p);
      ShiftCover(fields, i, p);
      assert i > 0 ==> Covers(rest, i - 1, p);
    }
  }

  // ---------------------------------------------------------------- scalars

  function ScalarMin(width: nat, signed: bool): int {
    if signed then -(Pow256(width) / 2) else 0
  }

  function ScalarLimit(width: nat, signed: bool): int {
    if signed then Pow256(width) / 2 else Pow256(width)
  }

  /** `struct.pack` of one little-endian scalar. */
  function PackScalar(width: nat, signed: bool, n: int): Option<seq<byte>> {
    if !(ScalarMin(width, signed) <= n < ScalarLimit(width, signed)) then None
    else Some(LittleEndian(if n < 0 then n + Pow256(width) else n, width))
  }

  function UnpackScalar(signed: bool, raw: seq<byte>): int {
    var n := FromLittleEndian(raw);
    if signed && n >= Pow256(|raw|) / 2 then n - Pow256(|raw|) else n
  }

  lemma Pow256Even(width: nat)
    requires width > 0
    ensures Pow256(width) % 2 == 0
  {
    assert Pow256(width) == 256 * Pow256(width - 1);
  }

  /** Packing and unpacking a scalar are inverse on the values of its type. */
  lemma ScalarRoundTrip(width: nat, signed: bool, n: int, raw: seq<byte>)
    requires width > 0
    ensures PackScalar(width, signed, n) == Some(raw) <==> |raw| == width && UnpackScalar(signed, raw) == n
  {
    Pow256Even(width);
    FromLittleEndianRoundTrip(raw);
    var m := if n < 0 then n + Pow256(width) else n;
    if ScalarMin(width, signed) <= n < ScalarLimit(width, signed) {
      LittleEndianRoundTrip(m, width);
    }
    hide LittleEndian, FromLittleEndian, Pow256;
  }

  // ---------------------------------------------------------------- one field

  function EncodeField(f: Field, value: Option<FieldValue>): (raw: Option<seq<byte>>)
    ensures raw.Some? ==> Sized(f.kind) && |raw.value| == Size(f.kind)
  {
    if !Sized(f.kind) || (value.None? && !f.reserved) then None
    else
      match f.kind
      case Scalar(width, signed) =>
        var v := value.GetOr(Num(0));
        if v.Num? then PackScalar(width, signed, v.n) else None
      case Blob(length) =>
        var v := value.GetOr(Raw(Zeros(length)));
        if v.Raw? && |v.bytes| == length then Some(v.bytes) else None
  }

  function DecodeField(f: Field, raw: seq<byte>): FieldValue {
    match f.kind
    case Scalar(_, signed) => Num(UnpackScalar(signed, raw))
    case _ => Raw(raw)
  }

  predicate IsZero(v: FieldValue) {
    match v
    case Num(n) => n == 0
    case Raw(bytes) => forall i :: 0 <= i < |bytes| ==> bytes[i] == 0
  }

  /** The value a field has when none is given. */
  function DefaultOf(f: Field): FieldValue
    requires Sized(f.kind)
  {
    if f.kind.Blob? then Raw(Zeros(f.kind.length)) else Num(0)
  }

  lemma FieldRoundTrip(f: Field, value: Option<FieldValue>, raw: seq<byte>)
    requires Sized(f.kind)
    ensures |raw| == Size(f.kind) ==> EncodeField(f, Some(DecodeField(f, raw))) == Some(raw)
    ensures EncodeField(f, value) == Some(raw) ==> DecodeField(f, raw) == value.GetOr(DefaultOf(f))
  {
    if f.kind.Scalar? {
      hide PackScalar, UnpackScalar;
      ScalarRoundTrip(f.kind.width, f.kind.signed, UnpackScalar(f.kind.signed, raw), raw);
      var v := value.GetOr(Num(0));
      if v.Num? {
        ScalarRoundTrip(f.kind.width, f.kind.signed, v.n, raw);
      }
    }
  }

  // ---------------------------------------------------------------- records

  function Lookup(values: Record, name: string): Option<FieldValue> {
    if name in values then Some(values[name]) else None
  }

  /** The fields one after another. */
  function EncodeFields(fields: seq<Field>, values: Record): Option<seq<byte>> {
    if fields == [] then Some([])
    else
      var raw := EncodeField(fields[0], Lookup(values, fields[0].name));
      var rest := EncodeFields(fields[1..], values);
      if raw.None? || rest.None? then None else Some(raw.value + rest.value)
  }

  /** A slice bound as Python reads it: a negative one counts from the end, and none leaves the data. */
  function Bound(i: int, length: nat): (b: nat)
    ensures b <= length
  {
    if i < 0 then (if i + length < 0 then 0 else i + length) else if i > length then length else i
  }

  /** `data[offset : offset + size]` */
  function Slice(data: seq<byte>, offset: int, size: nat): seq<byte> {
    var low, high := Bound(offset, |data|), Bound(offset + size, |data|);
    if low <= high then data[low..high] else []
  }

  function DecodeFields(fields: seq<Field>, data: seq<byte>): Result<Record, Code> {
    if fields == [] then Ok(map[])
    else if !Sized(fields[0].kind) then Err(SchemaFault)
    else
      var f := fields[0];
      var raw := Slice(data, f.offset, Size(f.kind));
      if |raw| != Size(f.kind) then Err(BadLength)
      else if f.reserved && !IsZero(DecodeField(f, raw)) then Err(BadReserved)
      else
        var rest :- DecodeFields(fields[1..], data);
        Ok(map[f.name := DecodeField(f, raw)] + rest)
  }

  /** `output[offset : offset + len(raw)] = raw` inside the buffer. */
  method WriteSlice(output: array<byte>, offset: nat, raw: seq<byte>)
    requires offset + |raw| <= output.Length
    modifies output
    ensures output[..offset + |raw|] == old(output[..offset]) + raw
    ensures output[offset + |raw|..] == old(output[offset + |raw|..])
  {
    forall k | 0 <= k < |raw| {
      output[offset + k] := raw[k];
    }
  }

  /** The slice writes into a zeroed buffer, as the program performs them. */
  method EncodeIntoBuffer(fields: seq<Field>, values: Record, size: nat) returns (r: Option<seq<byte>>)
    requires IsLayout(fields, size)
    ensures r == EncodeFields(fields, values)
  {
    var output := new byte[size](_ => 0);
    ghost var done: seq<byte> := [];
    assert fields[0..] == fields;
    BehindStep([], [], EncodeFields(fields, values));
    for i := 0 to |fields|
      invariant Written(fields[i..], done, size) && output.Length == size && output[..|done|] == done
      invariant EncodeFields(fields, values) == Behind(done, EncodeFields(fields[i..], values))
    {
      hide EncodeFields, Behind;
      var raw := WriteField(fields, i, values, output, done);
      if raw.None? {
        BehindNone(done);
        return None;
      }
      BehindStep(done, raw.value, EncodeFields(fields[i + 1..], values));
      done := done + raw.value;
    }
    assert fields[|fields|..] == [] && done + [] == done;
    assert |done| == size && output[..] == output[..|done|];
    r := Some(output[..]);
  }

  /** The bytes of the earlier fields are `done`, and the other fields take up the rest of the buffer. */
  ghost predicate Written(rest: seq<Field>, done: seq<byte>, size: nat) {
    Contiguous(rest, |done|) && End(rest, |done|) == size
  }

  method WriteField(fields: seq<Field>, i: nat, values: Record, output: array<byte>, ghost done: seq<byte>)
    returns (raw: Option<seq<byte>>)
    requires i < |fields| && Written(fields[i..], done, output.Length)
    requires |done| <= output.Length && output[..|done|] == done
    modifies output
    ensures raw.None? ==> EncodeFields(fields[i..], values).None?
    ensures raw.Some? ==>
              && |done + raw.value| <= output.Length
              && Written(fields[i + 1..], done + raw.value, output.Length)
              && EncodeFields(fields[i..], values) == Behind(raw.value, EncodeFields(fields[i + 1..], values))
              && output[..|done + raw.value|] == done + raw.value
  {
    hide EncodeField, Sized, Size, Behind, EncodeFields, Contiguous, End;
    var field := fields[i];
    TailStep(fields, i, values, |done|);
    raw := EncodeField(field, Lookup(values, field.name));
    if raw.Some? {
      WriteSlice(output, field.offset, raw.value);
    }
  }

  lemma TailStep(fields: seq<Field>, i: nat, values: Record, cursor: nat)
    requires i < |fields| && Contiguous(fields[i..], cursor)
    ensures fields[i].offset == cursor && Sized(fields[i].kind)
    ensures var next := cursor + Size(fields[i].kind);
            Contiguous(fields[i + 1..], next) && End(fields[i..], cursor) == End(fields[i + 1..], next) >= next
    ensures var raw := EncodeField(fields[i], Lookup(values, fields[i].name));
            EncodeFields(fields[i..], values)
              == if raw.None? then None else Behind(raw.value, EncodeFields(fields[i + 1..], values))
    ensures var raw := EncodeField(fields[i], Lookup(values, fields[i].name));
            raw.Some? ==> |raw.value| == Size(fields[i].kind)
  {
    hide EncodeField, Size, Sized;
    assert fields[i..][0] == fields[i] && fields[i..][1..] == fields[i + 1..];
  }

  lemma BehindNone(front: seq<byte>)
    ensures Behind(front, None) == None
  {
  }

  ghost function Behind(front: seq<byte>, rest: Option<seq<byte>>): Option<seq<byte>> {
    if rest.None? then None else Some(front + rest.value)
  }

  lemma BehindStep(front: seq<byte>, raw: seq<byte>, rest: Option<seq<byte>>)
    ensures Behind(front, Behind(raw, rest)) == Behind(front + raw, rest)
    ensures Behind([], rest) == rest
  {
    if rest.Some? {
      assert front + (raw + rest.value) == front + raw + rest.value;
      assert [] + rest.value == rest.value;
    }
  }

  method DecodeSlices(fields: seq<Field>, data: seq<byte>) returns (r: Result<Record, Code>)
    ensures r == DecodeFields(fields, data)
  {
    var values: Record := map[];
    assert fields[0..] == fields;
    JoinedNone(DecodeFields(fields, data));
    for i := 0 to |fields|
      invariant DecodeFields(fields, data) == Joined(values, DecodeFields(fields[i..], data))
    {
      hide DecodeField, IsZero, Slice;
      var field := fields[i];
      assert fields[i..][0] == field && fields[i..][1..] == fields[i + 1..];
      if !Sized(field.kind) {
        return Err(SchemaFault);
      }
      var size := Size(field.kind);
      var raw := Slice(data, field.offset, size);
      if |raw| != size {
        return Err(BadLength);
      }
      var value := DecodeField(field, raw);
      JoinedStep(values, field.name, value, DecodeFields(fields[i + 1..], data));
      values := values[field.name := value];
      if field.reserved && !IsZero(value) {
        return Err(BadReserved);
      }
    }
    assert values + map[] == values;
    r := Ok(values);
  }

  lemma JoinedNone(rest: Result<Record, Code>)
    ensures Joined(map[], rest) == rest
  {
    if rest.Ok? {
      assert map[] + rest.value == rest.value;
    }
  }

  ghost function Joined(values: Record, rest: Result<Record, Code>): Result<Record, Code> {
    if rest.Err? then rest else Ok(values + rest.value)
  }

  lemma JoinedStep(values: Record, name: string, value: FieldValue, rest: Result<Record, Code>)
    ensures Joined(values, Joined(map[name := value], rest)) == Joined(values[name := value], rest)
  {
    if rest.Ok? {
      assert values + (map[name := value] + rest.value) == values[name := value] + rest.value;
    }
  }

  // ---------------------------------------------------------------- inverse

  /** What the fields hold once defaults are filled in and strangers are dropped. */
  function Normal(fields: seq<Field>, values: Record): Record {
    if fields == [] then map[]
    else
      var f := fields[0];
      var v := Lookup(values, f.name).GetOr(if Sized(f.kind) then DefaultOf(f) else Num(0));
      map[f.name := v] + Normal(fields[1..], values)
  }

  /** No reserved field is given anything but zero. */
  predicate ReservedZero(fields: seq<Field>, values: Record) {
    forall i :: 0 <= i < |fields| && fields[i].reserved && fields[i].name in values ==>
      IsZero(values[fields[i].name])
  }

  lemma DefaultIsZero(f: Field)
    requires Sized(f.kind)
    ensures IsZero(DefaultOf(f))
  {
  }

  lemma {:induction false} EncodedLength(fields: seq<Field>, values: Record, start: nat)
    requires Contiguous(fields, start) && EncodeFields(fields, values).Some?
    ensures start + |EncodeFields(fields, values).value| == End(fields, start)
  {
    if fields != [] {
      hide EncodeField;
      EncodedLength(fields[1..], values, start + Size(fields[0].kind));
    }
  }

  /** Decoding what was encoded gives the normal form, unless a reserved field was given a non-zero
      value: then, and only then, it is refused. */
  lemma {:induction false} DecodeEncoded(fields: seq<Field>, values: Record, front: seq<byte>, data: seq<byte>, back: seq<byte>)
    requires Contiguous(fields, |front|) && EncodeFields(fields, values) == Some(data)
    ensures DecodeFields(fields, front + data + back)
         == if ReservedZero(fields, values) then Ok(Normal(fields, values)) else Err(BadReserved)
    decreases |fields|
  {
    hide *;
    if fields == [] {
      NothingDecoded(fields, values, front + data + back);
    } else {
      var f, rest := fields[0], fields[1..];
      var raw, tail := EncodeUnfold(fields, values);
      ContiguousStep(fields, |front|);
      FieldRoundTrip(f, Lookup(values, f.name), raw);
      DefaultIsZero(f);
      assert front + data + back == (front + raw) + tail + back;
      assert (front + data + back)[|front|..|front| + |raw|] == raw;
      DecodeEncoded(rest, values, front + raw, tail, back);
      ReservedZeroStep(fields, values);
      DecodeStep(fields, front + data + back);
      NormalStep(fields, values);
      LookupDefault(f, values);
    }
  }

  lemma NothingDecoded(fields: seq<Field>, values: Record, data: seq<byte>)
    requires fields == []
    ensures DecodeFields(fields, data) == Ok(Normal(fields, values)) && ReservedZero(fields, values)
  {
  }

  lemma LookupDefault(f: Field, values: Record)
    requires Sized(f.kind)
    ensures f.name in values ==> Lookup(values, f.name).GetOr(DefaultOf(f)) == values[f.name]
    ensures f.name !in values ==> Lookup(values, f.name).GetOr(DefaultOf(f)) == DefaultOf(f)
  {
  }

  lemma EncodeUnfold(fields: seq<Field>, values: Record) returns (raw: seq<byte>, tail: seq<byte>)
    requires fields != [] && EncodeFields(fields, values).Some?
    ensures EncodeField(fields[0], Lookup(values, fields[0].name)) == Some(raw)
    ensures Sized(fields[0].kind) && |raw| == Size(fields[0].kind)
    ensures EncodeFields(fields[1..], values) == Some(tail)
    ensures EncodeFields(fields, values) == Some(raw + tail)
  {
    hide EncodeField;
    raw := EncodeField(fields[0], Lookup(values, fields[0].name)).value;
    tail := EncodeFields(fields[1..], values).value;
  }

  lemma ReservedZeroStep(fields: seq<Field>, values: Record)
    requires fields != []
    ensures ReservedZero(fields, values) <==>
              (fields[0].reserved && fields[0].name in values ==> IsZero(values[fields[0].name]))
              && ReservedZero(fields[1..], values)
  {
    hide IsZero;
    if ReservedZero(fields[1..], values) && (fields[0].reserved && fields[0].name in values ==> IsZero(values[fields[0].name])) {
      forall i | 0 <= i < |fields| && fields[i].reserved && fields[i].name in values
        ensures IsZero(values[fields[i].name])
      {
        assert i > 0 ==> fields[i] == fields[1..][i - 1];
      }
    }
    if ReservedZero(fields, values) {
      forall i | 0 <= i < |fields[1..]| && fields[1..][i].reserved && fields[1..][i].name in values
        ensures IsZero(values[fields[1..][i].name])
      {
        assert fields[1..][i] == fields[i + 1];
      }
    }
  }

  lemma NormalStep(fields: seq<Field>, values: Record)
    requires fields != [] && Sized(fields[0].kind)
    ensures Normal(fields, values)
         == map[fields[0].name := Lookup(values, fields[0].name).GetOr(DefaultOf(fields[0]))] + Normal(fields[1..], values)
  {
  }

  lemma SliceWithin(data: seq<byte>, offset: nat, size: nat)
    requires offset + size <= |data|
    ensures Slice(data, offset, size) == data[offset..offset + size]
  {
  }

  lemma FieldsUnfold(fields: seq<Field>, data: seq<byte>)
    requires fields != [] && Sized(fields[0].kind)
    ensures var f := fields[0];
            var raw := Slice(data, f.offset, Size(f.kind));
            DecodeFields(fields, data)
              == if |raw| != Size(f.kind) then Err(BadLength)
                 else if f.reserved && !IsZero(DecodeField(f, raw)) then Err(BadReserved)
                 else Joined(map[f.name := DecodeField(f, raw)], DecodeFields(fields[1..], data))
  {
    hide DecodeField, IsZero, Slice, Sized, Size;
  }

  lemma JoinedIs(values: Record, rest: Result<Record, Code>)
    ensures Joined(values, rest) == if rest.Err? then rest else Ok(values + rest.value)
  {
  }

  lemma DecodeStep(fields: seq<Field>, data: seq<byte>)
    requires fields != [] && Sized(fields[0].kind)
    requires 0 <= fields[0].offset && fields[0].offset + Size(fields[0].kind) <= |data|
    ensures var f := fields[0];
            var value := DecodeField(f, data[f.offset..f.offset + Size(f.kind)]);
            DecodeFields(fields, data)
              == if f.reserved && !IsZero(value) then Err(BadReserved)
                 else Joined(map[f.name := value], DecodeFields(fields[1..], data))
    ensures var f := fields[0];
            var value := DecodeField(f, data[f.offset..f.offset + Size(f.kind)]);
            DecodeFields(fields, data)
              == if f.reserved && !IsZero(value) then Err(BadReserved)
                 else if DecodeFields(fields[1..], data).Err? then DecodeFields(fields[1..], data)
                 else Ok(map[f.name := value] + DecodeFields(fields[1..], data).value)
  {
    hide *;
    var f := fields[0];
    SliceWithin(data, f.offset, Size(f.kind));
    FieldsUnfold(fields, data);
    JoinedIs(map[f.name := DecodeField(f, data[f.offset..f.offset + Size(f.kind)])], DecodeFields(fields[1..], data));
  }

  /** Encoding what was decoded gives back the bytes. */
  lemma {:induction false} EncodeDecoded(fields: seq<Field>, front: seq<byte>, data: seq<byte>, back: seq<byte>,
                                         values: Record)
    requires Contiguous(fields, |front|) && End(fields, |front|) == |front + data|
    requires DecodeFields(fields, front + data + back).Ok?
    requires SubRecord(DecodeFields(fields, front + data + back).value, values)
    requires DistinctNames(fields)
    ensures EncodeFields(fields, values) == Some(data)
    ensures ReservedZero(fields, values)
    decreases |fields|
  {
    hide *;
    if fields == [] {
      EndEmpty(fields, |front|);
      NothingEncoded(fields, values, data);
    } else {
      ContiguousStep(fields, |front|);
      EndWithin(fields, |front|);
      var f, rest, size := fields[0], fields[1..], Size(fields[0].kind);
      var raw, tail := data[..size], data[size..];
      Cut(front, data, back, size);
      FieldRoundTrip(f, None, raw);
      DecodedHead(fields, front + data + back, values);
      DistinctTail(fields);
      EncodeDecoded(rest, front + raw, tail, back, values);
      ReservedZeroStep(fields, values);
      EncodeStep(fields, values, raw, tail);
    }
  }

  lemma NothingEncoded(fields: seq<Field>, values: Record, data: seq<byte>)
    requires fields == [] && data == []
    ensures EncodeFields(fields, values) == Some(data) && ReservedZero(fields, values)
  {
  }

  lemma Cut(front: seq<byte>, data: seq<byte>, back: seq<byte>, size: nat)
    requires size <= |data|
    ensures var raw, tail := data[..size], data[size..];
            && front + data + back == (front + raw) + tail + back
            && (front + data + back)[|front|..|front| + size] == raw
            && |front + data| == |front + raw + tail|
            && data == raw + tail
  {
  }

  lemma EndEmpty(fields: seq<Field>, start: nat)
    requires fields == [] && Contiguous(fields, start)
    ensures End(fields, start) == start
  {
  }

  lemma ContiguousStep(fields: seq<Field>, start: nat)
    requires fields != [] && Contiguous(fields, start)
    ensures Sized(fields[0].kind) && fields[0].offset == start && Size(fields[0].kind) > 0
    ensures Contiguous(fields[1..], start + Size(fields[0].kind))
  {
  }

  lemma EncodeStep(fields: seq<Field>, values: Record, raw: seq<byte>, tail: seq<byte>)
    requires fields != [] && EncodeField(fields[0], Lookup(values, fields[0].name)) == Some(raw)
    requires EncodeFields(fields[1..], values) == Some(tail)
    ensures EncodeFields(fields, values) == Some(raw + tail)
  {
    hide EncodeField;
  }

  lemma DecodedHead(fields: seq<Field>, data: seq<byte>, values: Record)
    requires fields != [] && Sized(fields[0].kind) && DistinctNames(fields)
    requires 0 <= fields[0].offset && fields[0].offset + Size(fields[0].kind) <= |data|
    requires DecodeFields(fields, data).Ok?
    requires SubRecord(DecodeFields(fields, data).value, values)
    ensures var f := fields[0];
            var value := DecodeField(f, data[f.offset..f.offset + Size(f.kind)]);
            && Lookup(values, f.name) == Some(value)
            && f.name in values && values[f.name] == value
            && (f.reserved ==> IsZero(value))
    ensures DecodeFields(fields[1..], data).Ok?
    ensures SubRecord(DecodeFields(fields[1..], data).value, values)
  {
    hide *;
    var f := fields[0];
    var value := DecodeField(f, data[f.offset..f.offset + Size(f.kind)]);
    DecodeStep(fields, data);
    assert f.name !in DecodeFields(fields[1..], data).value by {
      DecodedNames(fields[1..], data);
      NotAgain(fields);
    }
    LookupFound(values, f.name);
    SubRecordSplit(f.name, value, DecodeFields(fields[1..], data).value, values);
  }

  lemma LookupFound(values: Record, name: string)
    ensures name in values ==> Lookup(values, name) == Some(values[name])
  {
  }

  ghost predicate SubRecord(a: Record, b: Record) {
    forall n :: n in a ==> n in b && a[n] == b[n]
  }

  lemma SubRecordSplit(name: string, value: FieldValue, rest: Record, values: Record)
    requires name !in rest && SubRecord(map[name := value] + rest, values)
    ensures name in values && values[name] == value && SubRecord(rest, values)
  {
    var whole := map[name := value] + rest;
    assert name in whole && whole[name] == value;
    forall n | n in rest ensures n in values && rest[n] == values[n] {
      assert n in whole && whole[n] == rest[n];
    }
  }

  lemma DistinctTail(fields: seq<Field>)
    requires fields != [] && DistinctNames(fields)
    ensures DistinctNames(fields[1..])
  {
  }

  lemma EndWithin(fields: seq<Field>, start: nat)
    requires fields != [] && Contiguous(fields, start)
    ensures start + Size(fields[0].kind) <= End(fields, start) == End(fields[1..], start + Size(fields[0].kind))
  {
  }

  lemma NotAgain(fields: seq<Field>)
    requires fields != [] && DistinctNames(fields)
    ensures fields[0].name !in WireNames(fields[1..])
  {
    forall i | 0 <= i < |fields[1..]| ensures fields[1..][i].name != fields[0].name {
      assert fields[1..][i] == fields[i + 1];
    }
  }

  lemma {:induction false} DecodedNames(fields: seq<Field>, data: seq<byte>)
    requires DecodeFields(fields, data).Ok?
    ensures DecodeFields(fields, data).value.Keys == WireNames(fields)
  {
    if fields != [] {
      hide DecodeField, IsZero, Slice;
      DecodedNames(fields[1..], data);
      WireNamesStep(fields);
    }
  }

  lemma WireNamesStep(fields: seq<Field>)
    requires fields != []
    ensures WireNames(fields) == {fields[0].name} + WireNames(fields[1..])
  {
    forall n ensures n in WireNames(fields) <==> n in {fields[0].name} + WireNames(fields[1..]) {
      if n in WireNames(fields) {
        var i :| 0 <= i < |fields| && fields[i].name == n;
        assert i > 0 ==> fields[1..][i - 1].name == n;
      }
      if n in WireNames(fields[1..]) {
        var i :| 0 <= i < |fields[1..]| && fields[1..][i].name == n;
        assert fields[i + 1].name == n;
      }
    }
  }

  /** Encoding and decoding a valid layout are mutual inverses: a record of exactly the fields of the
      layout, with values in range and zero in reserved fields, against `size` bytes. */
  lemma LayoutBijection(fields: seq<Field>, size: nat, values: Record, data: seq<byte>)
    requires IsLayout(fields, size) && |data| == size
    ensures DecodeFields(fields, data) == Ok(values) <==>
              && EncodeFields(fields, values) == Some(data)
              && values.Keys == WireNames(fields)
              && ReservedZero(fields, values)
  {
    assert [] + data + [] == data;
    hide DecodeFields, EncodeFields, WireNames, ReservedZero, Contiguous, End, Normal, WellNamed, DistinctCNames;
    if DecodeFields(fields, data) == Ok(values) {
      DecodedNames(fields, data);
      EncodeDecoded(fields, [], data, [], values);
    }
    if EncodeFields(fields, values) == Some(data) && values.Keys == WireNames(fields) && ReservedZero(fields, values) {
      DecodeEncoded(fields, values, [], data, []);
      NormalIs(fields, values);
    }
  }

  lemma NormalIs(fields: seq<Field>, values: Record)
    requires values.Keys == WireNames(fields)
    ensures Normal(fields, values) == values
  {
    forall i | 0 <= i < |fields| ensures fields[i].name in values {
      assert fields[i].name in WireNames(fields);
    }
    NormalIdentity(fields, values);
    NormalNames(fields, values);
    hide WireNames, Normal;
  }

  lemma {:induction false} NormalIdentity(fields: seq<Field>, values: Record)
    requires forall i :: 0 <= i < |fields| ==> fields[i].name in values
    ensures forall n :: n in Normal(fields, values) ==> n in values && Normal(fields, values)[n] == values[n]
  {
    if fields != [] {
      NormalIdentity(fields[1..], values);
    }
  }

  lemma {:induction false} NormalNames(fields: seq<Field>, values: Record)
    ensures Normal(fields, values).Keys == WireNames(fields)
  {
    if fields != [] {
      NormalNames(fields[1..], values);
      WireNamesStep(fields);
    }
  }

  // ---------------------------------------------------------------- one field changed

  /** The field of this name, if there is one, can hold `value`. */
  ghost predicate Holds(fields: seq<Field>, name: string, value: FieldValue) {
    forall i :: 0 <= i < |fields| && fields[i].name == name ==> EncodeField(fields[i], Some(value)).Some?
  }

  /** A record that encodes still encodes with one value replaced by any that its field can hold. */
  lemma {:induction false} EncodeUpdated(fields: seq<Field>, values: Record, name: string, value: FieldValue)
    requires EncodeFields(fields, values).Some? && Holds(fields, name, value)
    ensures EncodeFields(fields, values[name := value]).Some?
  {
    if fields != [] {
      assert Holds(fields[1..], name, value) by {
        assert forall i :: 0 <= i < |fields[1..]| ==> fields[1..][i] == fields[i + 1];
      }
      EncodeUpdated(fields[1..], values, name, value);
      hide EncodeField;
    }
  }

  /** The encoder does not look at reserved fields: whatever non-zero value one of them can hold is encoded, and
      the bytes are refused. */
  lemma ReservedRefused(fields: seq<Field>, size: nat, values: Record, i: nat, value: FieldValue)
    requires IsLayout(fields, size) && EncodeFields(fields, values).Some?
    requires i < |fields| && fields[i].reserved && EncodeField(fields[i], Some(value)).Some? && !IsZero(value)
    ensures var data := EncodeFields(fields, values[fields[i].name := value]);
            data.Some? && DecodeFields(fields, data.value) == Err(BadReserved)
  {
    hide EncodeFields, DecodeFields, EncodeField, Contiguous, End, Normal, WellNamed, DistinctCNames, IsZero;
    assert Holds(fields, fields[i].name, value);
    var other := values[fields[i].name := value];
    EncodeUpdated(fields, values, fields[i].name, value);
    var data := EncodeFields(fields, other).value;
    DecodeEncoded(fields, other, [], data, []);
    assert [] + data + [] == data;
  }
}
