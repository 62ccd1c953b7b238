/** What a record of fields is refused for, and what the checks of a layout mean, with every name and
 *  character written out. */
module LayoutErrors {
  import opened Prelude
  import opened Complaints
  import opened Layout

  // ---------------------------------------------------------------- bytes

  /** The bytes from `offset`, when all of them are there. */
  lemma SliceInside(data: seq<byte>, offset: int, size: nat)
    requires offset >= 0
    ensures |Slice(data, offset, size)| == size <==> offset + size <= |data| || size == 0
    ensures offset + size <= |data| ==> Slice(data, offset, size) == data[offset..offset + size]
  {
  }

  lemma {:induction false} ZeroNumber(s: seq<byte>)
    ensures FromLittleEndian(s) == 0 <==> forall i :: 0 <= i < |s| ==> s[i] == 0
  {
    if s != [] {
      ZeroNumber(s[1..]);
      assert forall i :: 0 < i < |s| ==> s[i] == s[1..][i - 1];
    }
  }

  /** A scalar is zero exactly when its bytes are. */
  lemma ZeroScalar(signed: bool, raw: seq<byte>)
    requires raw != []
    ensures UnpackScalar(signed, raw) == 0 <==> forall i :: 0 <= i < |raw| ==> raw[i] == 0
  {
    ZeroNumber(raw);
    FromLittleEndianRoundTrip(raw);
    hide FromLittleEndian, LittleEndian;
  }

  /** The last byte of a number weighs most. */
  lemma {:induction false} TopByte(raw: seq<byte>)
    requires raw != []
    ensures var top, unit := raw[|raw| - 1], Pow256(|raw| - 1);
            top * unit <= FromLittleEndian(raw) < top * unit + unit
  {
    if |raw| > 1 {
      TopByte(raw[1..]);
      TopStep(raw[|raw| - 1], Pow256(|raw| - 2), raw[0], FromLittleEndian(raw[1..]));
    } else {
      assert FromLittleEndian(raw) == raw[0] + 256 * FromLittleEndian([]);
    }
  }

  lemma TopStep(top: nat, unit: nat, low: byte, high: nat)
    requires top * unit <= high < top * unit + unit
    ensures top * (256 * unit) <= low + 256 * high < top * (256 * unit) + 256 * unit
  {
    assert top * (256 * unit) == 256 * (top * unit);
  }

  /** The bytes of a number from the lowest on; a signed number is negative when the last byte is 128 or more. */
  lemma ScalarMeaning(signed: bool, raw: seq<byte>)
    requires raw != []
    ensures FromLittleEndian(raw) == raw[0] + 256 * FromLittleEndian(raw[1..])
    ensures UnpackScalar(signed, raw)
         == FromLittleEndian(raw) - if signed && raw[|raw| - 1] >= 128 then Pow256(|raw|) else 0
  {
    TopByte(raw);
    Middle(raw[|raw| - 1], Pow256(|raw| - 1), FromLittleEndian(raw));
  }

  lemma Middle(top: nat, unit: nat, n: nat)
    requires top * unit <= n < top * unit + unit
    ensures n >= 256 * unit / 2 <==> top >= 128
  {
    assert 256 * unit / 2 == 128 * unit;
    if top >= 128 {
      Scaled(128, top, unit);
    } else {
      Scaled(top + 1, 128, unit);
      assert (top + 1) * unit == top * unit + unit;
    }
  }

  lemma Scaled(a: nat, b: nat, unit: nat)
    requires a <= b
    ensures a * unit <= b * unit
  {
  }

  // ---------------------------------------------------------------- refused records

  ghost predicate NonZero(raw: seq<byte>) {
    exists i :: 0 <= i < |raw| && raw[i] != 0
  }

  /** What one field is refused for. */
  ghost function FieldComplaint(f: Field, data: seq<byte>): Option<Code> {
    match f.kind
    case Unknown => Some(SchemaFault)
    case Scalar(width, _) =>
      if width !in {1, 2, 4, 8} then Some(SchemaFault)
      else
        var raw := Slice(data, f.offset, width);
        Then(When(|raw| != width, BadLength), When(f.reserved && NonZero(raw), BadReserved))
    case Blob(length) =>
      if length <= 0 then Some(SchemaFault)
      else
        var raw := Slice(data, f.offset, length);
        Then(When(|raw| != length, BadLength), When(f.reserved && NonZero(raw), BadReserved))
  }

  /** The first complaint about a field. */
  ghost function FieldsComplaint(fields: seq<Field>, data: seq<byte>): Option<Code> {
    if fields == [] then None else Then(FieldComplaint(fields[0], data), FieldsComplaint(fields[1..], data))
  }

  lemma ZeroValue(f: Field, raw: seq<byte>)
    requires Sized(f.kind) && |raw| == Size(f.kind)
    ensures IsZero(DecodeField(f, raw)) <==> !NonZero(raw)
  {
    if f.kind.Scalar? {
      ZeroScalar(f.kind.signed, raw);
      hide UnpackScalar;
    }
  }

  lemma FieldStep(f: Field, rest: seq<Field>, data: seq<byte>)
    ensures Of(DecodeFields([f] + rest, data)) == Then(FieldComplaint(f, data), Of(DecodeFields(rest, data)))
  {
    var fields := [f] + rest;
    assert fields[0] == f && fields[1..] == rest;
    if Sized(f.kind) {
      var raw := Slice(data, f.offset, Size(f.kind));
      hide Slice, DecodeField, IsZero;
      if |raw| == Size(f.kind) {
        ZeroValue(f, raw);
      }
    }
  }

  /** A record is refused for the first complaint about one of its fields, in their order. */
  lemma {:induction false} FieldsComplain(fields: seq<Field>, data: seq<byte>)
    ensures Of(DecodeFields(fields, data)) == FieldsComplaint(fields, data)
  {
    if fields != [] {
      assert fields == [fields[0]] + fields[1..];
      FieldStep(fields[0], fields[1..], data);
      FieldsComplain(fields[1..], data);
      hide DecodeFields, FieldComplaint;
    }
  }

  // ---------------------------------------------------------------- encoded fields

  /** What a field can be given: a number in the range of its type, or exactly as many bytes as it has; nothing at
      all is all zeros, and only for a reserved field. */
  lemma FieldEncodes(f: Field, value: Option<FieldValue>, raw: seq<byte>)
    ensures EncodeField(f, value) == Some(raw) <==>
              match f.kind
              case Unknown => false
              case Scalar(width, signed) =>
                && width in {1, 2, 4, 8} && |raw| == width
                && (value.None? ==> f.reserved && forall i :: 0 <= i < width ==> raw[i] == 0)
                && (value.Some? ==> value == Some(Num(UnpackScalar(signed, raw))))
              case Blob(length) =>
                && 0 < length == |raw|
                && (value.None? ==> f.reserved && forall i :: 0 <= i < length ==> raw[i] == 0)
                && (value.Some? ==> value == Some(Raw(raw)))
  {
    if f.kind.Scalar? && Sized(f.kind) {
      var v := value.GetOr(Num(0));
      if v.Num? {
        ScalarRoundTrip(f.kind.width, f.kind.signed, v.n, raw);
      }
      if |raw| == f.kind.width {
        ZeroScalar(f.kind.signed, raw);
      }
      hide PackScalar, UnpackScalar;
    }
    if f.kind.Blob? && Sized(f.kind) && AllZero(raw) && |raw| == f.kind.length {
      assert raw == Zeros(f.kind.length);
    }
  }

  // ---------------------------------------------------------------- names

  /** Letters, digits and underscores, and no digit first. */
  predicate Spelled(name: string) {
    && name != [] && !(48 <= name[0] as int <= 57)
    && forall i :: 0 <= i < |name| ==>
         var code := name[i] as int;
         48 <= code <= 57 || 65 <= code <= 90 || code == 95 || 97 <= code <= 122
  }

  lemma IdentifierMeaning(name: string)
    ensures IsIdentifier(name) <==> Spelled(name)
  {
  }

  /** A field without a C name of its own is called like the field, with a suffix when it has several bytes. */
  lemma CNameMeaning(f: Field)
    ensures CName(f) ==
            match f.cName
            case Some(name) => name
            case None =>
              match f.kind
              case Scalar(width, _) => if width in {0, 1} then f.name else f.name + ['_', 'l', 'e']
              case _ => f.name
  {
  }

  /** A reserved field says so, in whichever case. */
  lemma ReservedMeaning(name: string)
    ensures NamedReserved(name) <==>
              |name| >= 8 && forall i :: 0 <= i < 8 ==> name[i] == "reserved"[i] || name[i] == "RESERVED"[i]
  {
  }

  // ---------------------------------------------------------------- layouts

  /** The bytes a field takes up; none for a type that is not known. */
  function WidthOf(kind: Kind): nat {
    match kind
    case Scalar(width, _) => if width in {1, 2, 4, 8} then width else 0
    case Blob(length) => if length > 0 then length else 0
    case Unknown => 0
  }

  /** Where field `i` has to start. */
  function StartOf(fields: seq<Field>, start: nat, i: nat): int
    requires i <= |fields|
  {
    if i == 0 then start else fields[i - 1].offset + WidthOf(fields[i - 1].kind)
  }

  lemma {:induction false} ContiguousMeaning(fields: seq<Field>, start: nat)
    ensures Contiguous(fields, start) <==>
              forall i :: 0 <= i < |fields| ==> WidthOf(fields[i].kind) > 0 && fields[i].offset == StartOf(fields, start, i)
    ensures Contiguous(fields, start) ==> End(fields, start) == StartOf(fields, start, |fields|)
    decreases |fields|
  {
    if fields != [] {
      var rest, next := fields[1..], start + WidthOf(fields[0].kind);
      ContiguousMeaning(rest, next);
      hide WidthOf;
      assert forall i :: 0 < i < |fields| ==> fields[i] == rest[i - 1];
      if Contiguous(fields, start) {
        FirstField(fields, start);
        forall i | 0 <= i < |fields|
          ensures WidthOf(fields[i].kind) > 0 && fields[i].offset == StartOf(fields, start, i)
        {
          assert i > 0 ==> StartOf(rest, next, i - 1) == StartOf(fields, start, i);
        }
      } else if forall i :: 0 <= i < |fields| ==> WidthOf(fields[i].kind) > 0 && fields[i].offset == StartOf(fields, start, i) {
        forall i | 0 <= i < |rest| ensures WidthOf(rest[i].kind) > 0 && rest[i].offset == StartOf(rest, next, i) {
          assert fields[i + 1].offset == StartOf(fields, start, i + 1);
        }
        FirstField(fields, start);
      }
    }
  }

  lemma FirstField(fields: seq<Field>, start: nat)
    requires fields != []
    ensures Contiguous(fields, start) <==>
              && WidthOf(fields[0].kind) > 0 && fields[0].offset == start
              && Contiguous(fields[1..], start + WidthOf(fields[0].kind))
    ensures Contiguous(fields, start) ==> End(fields, start) == End(fields[1..], start + WidthOf(fields[0].kind))
  {
  }

  /** A layout: fields of known types, each starting where the one before it ends, up to the size; well-spelled names
      and C names, none of them twice; and reserved fields that say so. */
  lemma LayoutMeaning(fields: seq<Field>, size: nat)
    ensures IsLayout(fields, size) <==>
              && (forall i :: 0 <= i < |fields| ==> WidthOf(fields[i].kind) > 0 && fields[i].offset == StartOf(fields, 0, i))
              && StartOf(fields, 0, |fields|) == size
              && (forall i :: 0 <= i < |fields| ==> Spelled(fields[i].name) && Spelled(CName(fields[i])))
              && (forall i :: 0 <= i < |fields| && fields[i].reserved ==> NamedReserved(fields[i].name))
              && (forall i, j :: 0 <= i < j < |fields| ==>
                    fields[i].name != fields[j].name && CName(fields[i]) != CName(fields[j]))
  {
    ContiguousMeaning(fields, 0);
    forall name: string ensures IsIdentifier(name) <==> Spelled(name) {
      IdentifierMeaning(name);
    }
    hide Contiguous, End, IsIdentifier, Spelled, CName, NamedReserved, WidthOf, StartOf;
  }
}
