/** Which status a refused manifest gets: the first complaint, over the dict of integer keys itself, with every
 *  limit written out. */
module ManifestErrors {
  import opened Prelude
  import Utf8
  import opened Cbor
  import opened Complaints
  import opened Envelope
  import opened Manifest
  import opened ManifestRules

  // ---------------------------------------------------------------- the parts of a value

  function At(v: Value, key: nat): Value {
    if v.Dict? && key in v.entries then v.entries[key] else Other
  }

  function Item(v: Value, i: nat): Value {
    if v.List? && i < |v.elements| then v.elements[i] else Other
  }

  ghost predicate Keys(v: Value, n: nat) {
    v.Dict? && forall k: nat :: k in v.entries <==> k < n
  }

  function Number(v: Value, limit: nat): Option<Status> {
    Then(When(!v.Int? || v.n < 0, Malformed), When(v.Int? && v.n >= limit, Oversize))
  }

  ghost function Short(v: Value): Option<Status> {
    When(!v.Text? || !ShortText(v.characters), Malformed)
  }

  function Raw(v: Value, size: nat): Option<Status> {
    When(!v.Bytes? || |v.raw| != size, Malformed)
  }

  function Sized(v: Value, size: nat): Option<Status> {
    When(!v.List? || |v.elements| != size, Malformed)
  }

  const WORD: nat := 0x1_0000_0000
  const LONG: nat := 0x1_0000_0000_0000_0000

  // ---------------------------------------------------------------- the typed walk

  ghost function ImageComplaint(v: Value): Option<Status> {
    Then(When(!Keys(v, 7), Malformed),
    Then(Number(At(v, 0), WORD),
    Then(Number(At(v, 1), WORD),
    Then(Raw(At(v, 2), 32),
    Then(Short(At(v, 3)),
    Then(Number(At(v, 4), LONG),
    Then(Number(At(v, 5), WORD),
    Then(Number(At(v, 6), WORD),
         When(At(v, 0) !in [Int(1), Int(2), Int(3), Int(4)] || At(v, 5) !in [Int(1), Int(2)], Malformed)))))))))
  }

  ghost function ImagesComplaint(vs: seq<Value>): Option<Status> {
    if vs == [] then None else Then(ImageComplaint(vs[0]), ImagesComplaint(vs[1..]))
  }

  function RangeComplaint(v: Value): Option<Status> {
    Then(Sized(v, 2),
    Then(Number(Item(v, 0), WORD),
    Then(Number(Item(v, 1), WORD),
         When(Item(v, 0).Int? && Item(v, 1).Int? && Item(v, 0).n > Item(v, 1).n, Malformed))))
  }

  function PairsComplaint(vs: seq<Value>): Option<Status> {
    if vs == [] then None
    else
      Then(Sized(vs[0], 2),
      Then(Number(Item(vs[0], 0), WORD),
      Then(Number(Item(vs[0], 1), WORD),
           PairsComplaint(vs[1..]))))
  }

  ghost function CompatibilityComplaint(v: Value): Option<Status> {
    Then(When(!Keys(v, 4), Malformed),
    Then(RangeComplaint(At(v, 0)),
    Then(RangeComplaint(At(v, 1)),
    Then(RangeComplaint(At(v, 2)),
    Then(When(!At(v, 3).List?, Malformed),
    Then(When(At(v, 3).List? && |At(v, 3).elements| > 16, Oversize),
         PairsComplaint(if At(v, 3).List? then At(v, 3).elements else [])))))))
  }

  function TripleComplaint(v: Value, last: nat): Option<Status> {
    Then(Sized(v, 3),
    Then(Number(Item(v, 0), WORD),
    Then(Number(Item(v, 1), WORD),
         Number(Item(v, 2), last))))
  }

  ghost function ScalarsComplaint(v: Value): Option<Status> {
    Then(Number(At(v, 0), WORD),
    Then(When(At(v, 0) != Int(2), UnsupportedVersion),
    Then(Raw(At(v, 1), 16),
    Then(Number(At(v, 2), WORD),
    Then(Short(At(v, 3)),
    Then(Short(At(v, 4)),
    Then(Short(At(v, 5)),
    Then(Number(At(v, 6), WORD),
         Number(At(v, 7), WORD)))))))))
  }

  function RoleComplaint(v: Value): Option<Status> {
    Then(When(At(v, 2) != Int(1) && At(v, 2) != Int(2) && At(v, 2) != Int(3), Malformed),
         When(!At(v, 8).List? || |At(v, 8).elements| < 1 || |At(v, 8).elements| > 3, Malformed))
  }

  ghost function StructureComplaint(v: Value): Option<Status> {
    Then(ImagesComplaint(if At(v, 8).List? then At(v, 8).elements else []),
    Then(CompatibilityComplaint(At(v, 9)),
    Then(TripleComplaint(At(v, 10), WORD),
         TripleComplaint(At(v, 11), LONG))))
  }

  ghost function WalkComplaint(v: Value): Option<Status> {
    Then(When(!Keys(v, 12), Malformed),
    Then(ScalarsComplaint(v),
    Then(RoleComplaint(v),
         StructureComplaint(v))))
  }

  lemma KeysMeaning(v: Value, n: nat)
    ensures IsMap(v, n) <==> Keys(v, n)
  {
  }

  lemma NumberComplaint(v: Value, limit: nat)
    ensures Of(Uint(v, limit)) == Number(v, limit)
    ensures Uint(v, limit).Ok? ==> v == Int(Uint(v, limit).value)
  {
  }

  lemma ShortComplaint(v: Value)
    ensures Of(TextOf(v)) == Short(v)
  {
  }

  lemma ImageComplains(v: Value)
    ensures Of(TypeImage(v)) == ImageComplaint(v)
  {
    KeysMeaning(v, 7);
    if Keys(v, 7) {
      var m := v.entries;
      NumberComplaint(m[0], U32);
      NumberComplaint(m[1], U32);
      ShortComplaint(m[3]);
      NumberComplaint(m[4], U64);
      NumberComplaint(m[5], U32);
      NumberComplaint(m[6], U32);
    }
    hide Uint, TextOf, Number, Short;
  }

  lemma {:induction false} ImagesComplain(vs: seq<Value>)
    ensures Of(TypeImages(vs)) == ImagesComplaint(vs)
  {
    if vs != [] {
      ImageComplains(vs[0]);
      ImagesComplain(vs[1..]);
      hide TypeImage, ImageComplaint;
    }
  }

  lemma RangeComplains(v: Value)
    ensures Of(TypeRange(v)) == RangeComplaint(v)
  {
  }

  lemma {:induction false} PairsComplain(vs: seq<Value>)
    ensures Of(TypePairs(vs)) == PairsComplaint(vs)
  {
    if vs != [] {
      PairsComplain(vs[1..]);
    }
  }

  lemma CompatibilityComplains(v: Value)
    ensures Of(TypeCompatibility(v)) == CompatibilityComplaint(v)
  {
    KeysMeaning(v, 4);
    if Keys(v, 4) {
      var m := v.entries;
      RangeComplains(m[0]);
      RangeComplains(m[1]);
      RangeComplains(m[2]);
      if m[3].List? {
        PairsComplain(m[3].elements);
      }
    }
    hide TypeRange, TypePairs, RangeComplaint, PairsComplaint;
  }

  lemma TripleComplains(v: Value, last: nat)
    ensures Of(TypeTriple(v, last)) == TripleComplaint(v, last)
  {
  }

  lemma ScalarsComplain(v: Value)
    requires Keys(v, 12)
    ensures forall i: nat :: i < 12 ==> i in v.entries
    ensures Of(TypeScalars(v.entries)) == ScalarsComplaint(v)
    ensures TypeScalars(v.entries).Ok? ==> v.entries[2] == Int(TypeScalars(v.entries).value.role)
  {
    var m := v.entries;
    NumberComplaint(m[0], U32);
    NumberComplaint(m[2], U32);
    ShortComplaint(m[3]);
    ShortComplaint(m[4]);
    ShortComplaint(m[5]);
    NumberComplaint(m[6], U32);
    NumberComplaint(m[7], U32);
    hide Uint, TextOf, Number, Short;
  }

  lemma RoleComplains(v: Value, role: nat)
    requires Keys(v, 12)
    ensures 2 in v.entries && 8 in v.entries
    ensures v.entries[2] == Int(role) ==>
              RoleComplaint(v)
                == if !KnownRole(role) || !v.entries[8].List? || !(1 <= |v.entries[8].elements| <= 3) then Some(Malformed)
                   else None
  {
  }

  lemma StructureComplains(v: Value)
    requires Keys(v, 12) && v.entries[8].List?
    ensures 9 in v.entries && 10 in v.entries && 11 in v.entries
    ensures StructureComplaint(v)
         == Then(Of(TypeImages(v.entries[8].elements)),
            Then(Of(TypeCompatibility(v.entries[9])),
            Then(Of(TypeTriple(v.entries[10], U32)),
                 Of(TypeTriple(v.entries[11], U64)))))
  {
    ImagesComplain(v.entries[8].elements);
    CompatibilityComplains(v.entries[9]);
    TripleComplains(v.entries[10], U32);
    TripleComplains(v.entries[11], U64);
    hide TypeImages, TypeCompatibility, TypeTriple, ImagesComplaint, CompatibilityComplaint, TripleComplaint;
  }

  /** The typed walk refuses a value for its first complaint. */
  lemma WalkComplains(v: Value)
    ensures Of(TypeDocument(v)) == WalkComplaint(v)
  {
    hide Keys, TypeScalars, TypeImages, TypeCompatibility, TypeTriple, ScalarsComplaint, RoleComplaint, StructureComplaint;
    KeysMeaning(v, 12);
    if Keys(v, 12) {
      ScalarsComplain(v);
      if TypeScalars(v.entries).Ok? {
        RoleComplains(v, TypeScalars(v.entries).value.role);
      }
      if v.entries[8].List? {
        StructureComplains(v);
      }
    }
  }

  // ---------------------------------------------------------------- the cross checks

  /** What is wrong with an image by itself. */
  predicate Unsuited(d: Document, image: Image) {
    || (d.role == 1 && image.target != 1 && image.target != 2)
    || (d.role == 2 && image.target != 3)
    || (d.role == 3 && image.target != 4)
    || image.length == 0
    || (image.target == 2 && !(d.compatibility.stm.low <= image.abi <= d.compatibility.stm.high))
    || (image.target != 2 && !(d.compatibility.esp.low <= image.abi <= d.compatibility.esp.high))
    || (image.target == 2 && image.signature != 2)
    || (image.target != 2 && image.signature != 1)
  }

  predicate TooLong(image: Image) {
    || (image.target == 1 && image.length > 4194304)
    || (image.target == 2 && image.length > 184320)
    || (image.target == 3 && image.length > 4194304)
    || (image.target == 4 && image.length > 2621440)
  }

  /** The least multiple of 64 KiB from `offset` on. */
  function RoundUp(offset: nat): nat {
    (offset + 65535) / 65536 * 65536
  }

  function PlacesComplaint(d: Document, i: nat, offset: nat): Option<Status>
    requires i <= |d.images|
    decreases |d.images| - i
  {
    if i == |d.images| then None
    else
      var image := d.images[i];
      Then(When(Unsuited(d, image), Malformed),
      Then(When(exists j :: 0 <= j < i && d.images[j].target == image.target, Duplicate),
      Then(When(TooLong(image) || RoundUp(offset) + image.length > 0xFFFF_FFFF, Oversize),
           PlacesComplaint(d, i + 1, RoundUp(offset) + image.length))))
  }

  function PairComplaint(c: Compatibility, i: nat): Option<Status>
    requires i <= |c.pairs|
    decreases |c.pairs| - i
  {
    if i == |c.pairs| then None
    else
      var p := c.pairs[i];
      Then(When(!(c.esp.low <= p.0 <= c.esp.high) || !(c.stm.low <= p.1 <= c.stm.high), Malformed),
      Then(When(exists j :: 0 <= j < i && c.pairs[j] == p, Duplicate),
           PairComplaint(c, i + 1)))
  }

  function CrossComplaint(d: Document, identity: Identity, size: nat, count: nat, total: nat): Option<Status> {
    Then(When(d.role != identity.role || d.board != identity.board || d.layout != identity.layout
              || d.epoch != identity.epoch || d.keyId != identity.keyId, AuthFailed),
    Then(When(|d.images| != count || (d.role == 1 && |d.images| > 2) || (d.role != 1 && |d.images| > 1)
              || !(d.config.0 <= d.config.2 <= d.config.1), Malformed),
    Then(When((d.role == 1 && |d.compatibility.pairs| == 0) || (d.role != 1 && |d.compatibility.pairs| > 0), Malformed),
    Then(PlacesComplaint(d, 0, size),
    Then(PairComplaint(d.compatibility, 0),
         When(Total(size, ImageLengths(d.images)) != total, Malformed))))))
  }

  ghost predicate SeenSoFar(d: Document, i: nat, seen: set<nat>)
    requires i <= |d.images|
  {
    forall t: nat :: t in seen <==> exists j :: 0 <= j < i && d.images[j].target == t
  }

  lemma {:induction false} PlacesComplain(d: Document, i: nat, offset: nat, seen: set<nat>)
    requires KnownRole(d.role) && TargetsKnown(d.images) && i <= |d.images| && SeenSoFar(d, i, seen)
    ensures TargetsKnown(d.images[i..])
    ensures Of(CheckImages(d, d.images[i..], offset, seen)) == PlacesComplaint(d, i, offset)
    ensures CheckImages(d, d.images[i..], offset, seen).Ok? ==>
              CheckImages(d, d.images[i..], offset, seen).value.total == Total(offset, ImageLengths(d.images[i..]))
    decreases |d.images| - i
  {
    hide ImageAllowed, Unsuited, TooLong, ImageLimit, SeenSoFar, ImageOffset, RoundUp, ImageLengths;
    if i == |d.images| {
      NoLengths(d.images[i..]);
    } else {
      var rest, image, at := d.images[i..], d.images[i], ImageOffset(offset);
      assert rest[0] == image && rest[1..] == d.images[i + 1..];
      SeenMore(d, i, seen);
      PlacesComplain(d, i + 1, at + image.length, seen + {image.target});
      AllowedOrNot(d, image);
      RoundUpIs(offset);
      LengthsTail(rest);
    }
  }

  lemma SeenMore(d: Document, i: nat, seen: set<nat>)
    requires i < |d.images| && SeenSoFar(d, i, seen)
    ensures SeenSoFar(d, i + 1, seen + {d.images[i].target})
    ensures d.images[i].target in seen <==> exists j :: 0 <= j < i && d.images[j].target == d.images[i].target
  {
  }

  lemma AllowedOrNot(d: Document, image: Image)
    requires KnownRole(d.role) && KnownTarget(image.target)
    ensures ImageAllowed(d, image) <==> !Unsuited(d, image)
    ensures image.length > ImageLimit(image.target) <==> TooLong(image)
  {
  }

  lemma RoundUpIs(offset: nat)
    ensures RoundUp(offset) == ImageOffset(offset)
  {
  }

  lemma NoLengths(images: seq<Image>)
    requires images == []
    ensures ImageLengths(images) == []
  {
  }

  lemma LengthsTail(images: seq<Image>)
    requires images != []
    ensures ImageLengths(images) != [] && ImageLengths(images)[0] == images[0].length
    ensures ImageLengths(images)[1..] == ImageLengths(images[1..])
  {
  }

  ghost predicate PairsSeen(c: Compatibility, i: nat, seen: set<(nat, nat)>)
    requires i <= |c.pairs|
  {
    forall p: (nat, nat) :: p in seen <==> exists j :: 0 <= j < i && c.pairs[j] == p
  }

  lemma {:induction false} PairsComplainAt(c: Compatibility, i: nat, seen: set<(nat, nat)>)
    requires i <= |c.pairs| && PairsSeen(c, i, seen)
    ensures CheckPairs(c, c.pairs[i..], seen) == PairComplaint(c, i)
    decreases |c.pairs| - i
  {
    if i < |c.pairs| {
      assert c.pairs[i..][0] == c.pairs[i] && c.pairs[i..][1..] == c.pairs[i + 1..];
      assert PairsSeen(c, i + 1, seen + {c.pairs[i]});
      PairsComplainAt(c, i + 1, seen + {c.pairs[i]});
      assert c.pairs[i] in seen <==> exists j :: 0 <= j < i && c.pairs[j] == c.pairs[i];
      hide PairsSeen;
    }
  }

  /** The cross checks refuse a typed manifest for its first complaint. */
  lemma CrossComplains(d: Document, identity: Identity, size: nat, count: nat, total: nat)
    requires KnownRole(d.role) && TargetsKnown(d.images)
    ensures Of(CheckDocument(d, identity, size, count, total)) == CrossComplaint(d, identity, size, count, total)
  {
    assert d.images[0..] == d.images && d.compatibility.pairs[0..] == d.compatibility.pairs;
    PlacesComplain(d, 0, size, {});
    PairsComplainAt(d.compatibility, 0, {});
    hide CheckImages, CheckPairs, PlacesComplaint, PairComplaint, Total, ImageLengths;
  }

  // ---------------------------------------------------------------- the prefix

  function Short16(data: seq<byte>, at: nat): nat
    requires at + 2 <= |data|
  {
    data[at] as nat + 0x100 * data[at + 1] as nat
  }

  function Word32(data: seq<byte>, at: nat): nat
    requires at + 4 <= |data|
  {
    data[at] as nat + 0x100 * data[at + 1] as nat + 0x1_0000 * data[at + 2] as nat + 0x100_0000 * data[at + 3] as nat
  }

  /** The header by itself, then against the length of the data. */
  function HeaderComplaint(data: seq<byte>): Option<Status> {
    if |data| > 16472 then Some(Oversize)
    else if |data| < 24 then Some(Incomplete)
    else
      var size, count, total := Word32(data, 12), Short16(data, 18), Word32(data, 20);
      Then(When(data[..8] != [0x43, 0x56, 0x4F, 0x54, 0x41, 0x30, 0x30, 0x32], Malformed),
      Then(When(Short16(data, 8) != 2, UnsupportedVersion),
      Then(When(Short16(data, 10) != 24 || Short16(data, 16) != 64 || size == 0, Malformed),
      Then(When(size > 16384, Oversize),
      Then(When(|data| < 88 + size, Incomplete),
      Then(When(|data| > 88 + size, Malformed),
      Then(When(count < 1 || count > 3 || total < RoundUp(88 + size) + count, Malformed),
           When(total > 12795992, Oversize))))))))
  }

  /** The whole prefix: its header, its document, its signature. */
  function PrefixComplaint(data: seq<byte>, verify: Verify): Option<Status> {
    Then(HeaderComplaint(data),
         if |data| < 88 then None
         else
           Then(Of(DecodeDocument(data[24..|data| - 64])),
                verify(data[24..|data| - 64], data[|data| - 64..])))
  }

  lemma Little(data: seq<byte>, at: nat)
    ensures at + 2 <= |data| ==> FromLittleEndian(data[at..at + 2]) == Short16(data, at)
    ensures at + 4 <= |data| ==> FromLittleEndian(data[at..at + 4]) == Word32(data, at)
  {
    if at + 2 <= |data| {
      LittleTail(data[at..at + 2]);
    }
    if at + 4 <= |data| {
      LittleTail(data[at..at + 4]);
    }
  }

  lemma LittleTail(s: seq<byte>)
    ensures |s| == 2 ==> FromLittleEndian(s) == s[0] as nat + 0x100 * s[1] as nat
    ensures |s| == 4 ==>
              FromLittleEndian(s)
                == s[0] as nat + 0x100 * s[1] as nat + 0x1_0000 * s[2] as nat + 0x100_0000 * s[3] as nat
  {
    if |s| == 2 {
      assert s[1..][1..] == [];
    }
    if |s| == 4 {
      assert FromLittleEndian(s) == s[0] as nat + 256 * FromLittleEndian(s[1..]);
      assert FromLittleEndian(s[1..]) == s[1] as nat + 256 * FromLittleEndian(s[2..]) by { assert s[1..][1..] == s[2..]; }
      assert FromLittleEndian(s[2..]) == s[2] as nat + 256 * FromLittleEndian(s[3..]) by { assert s[2..][1..] == s[3..]; }
      assert FromLittleEndian(s[3..]) == s[3] by { assert s[3..][1..] == []; }
    }
  }

  lemma Unpacked(data: seq<byte>)
    requires |data| >= 24
    ensures var h := Unpack(data);
            && h.magic == data[..8] && h.version == Short16(data, 8) && h.headerSize == Short16(data, 10)
            && h.manifestSize == Word32(data, 12) && h.signatureSize == Short16(data, 16)
            && h.count == Short16(data, 18) && h.total == Word32(data, 20)
  {
    Little(data, 8);
    Little(data, 10);
    Little(data, 12);
    Little(data, 16);
    Little(data, 18);
    Little(data, 20);
    hide FromLittleEndian, Short16, Word32;
  }

  /** A prefix is refused for its first complaint. */
  lemma PrefixComplains(data: seq<byte>, verify: Verify)
    ensures Of(CheckPrefix(data, verify)) == PrefixComplaint(data, verify)
  {
    if 24 <= |data| {
      Unpacked(data);
      RoundUpIs(88 + Word32(data, 12));
      hide Unpack, Short16, Word32, RoundUp, ImageOffset, DecodeDocument;
      if HeaderComplaint(data).None? {
        assert data[HEADER_SIZE..HEADER_SIZE + Unpack(data).manifestSize] == data[24..|data| - 64];
      }
    }
  }

  /** The manifest check refuses a prefix for its first complaint: of its bytes, of its typed walk, of its cross
      checks. */
  lemma ManifestComplains(data: seq<byte>, identity: Identity, verify: Verify)
    ensures Of(CheckManifestSpec(data, identity, verify))
         == Then(PrefixComplaint(data, verify),
                 if CheckPrefix(data, verify).Err? then None
                 else
                   var v := CheckPrefix(data, verify).value;
                   Then(WalkComplaint(v),
                        if TypeDocument(v).Err? || |data| < 24 then None
                        else CrossComplaint(TypeDocument(v).value, identity, |data|, Short16(data, 18), Word32(data, 20))))
  {
    PrefixComplains(data, verify);
    if CheckPrefix(data, verify).Ok? {
      var v := CheckPrefix(data, verify).value;
      PrefixHasHeader(data, verify);
      Unpacked(data);
      WalkComplains(v);
      if TypeDocument(v).Ok? {
        TypedDocument(v);
        CrossComplains(TypeDocument(v).value, identity, |data|, Short16(data, 18), Word32(data, 20));
      }
    }
    hide CheckPrefix, TypeDocument, CheckDocument, PrefixComplaint, WalkComplaint, CrossComplaint, Unpack, Short16, Word32;
  }
}
