/** Which status a refused JSON manifest gets: of its shape, of the encoder, of the declared sizes, or of the manifest
 *  check that the loader runs on its own encoding. */
module ManifestLoadErrors {
  import opened Prelude
  import Utf8
  import opened Cbor
  import opened Complaints
  import opened ManifestJson
  import opened ManifestLoading
  import E = Envelope
  import M = Manifest
  import ManifestEncoding
  import ManifestErrors

  // ---------------------------------------------------------------- the shape

  predicate HexLike(c: Utf8.codepoint) {
    0x30 <= c <= 0x39 || 0x61 <= c <= 0x66
  }

  /** A text of so many lower-case hex digits. */
  predicate Hex(json: Json, digits: nat) {
    json.Str? && |json.characters| == digits && forall i :: 0 <= i < digits ==> HexLike(json.characters[i])
  }

  predicate ImageLike(json: Json) {
    && json.Object?
    && json.members.Keys == {"target", "length", "sha256", "version", "release_sequence", "signature", "abi"}
    && Hex(json.members["sha256"], 64)
  }

  /** An object with exactly the properties of a manifest, one or two images with exactly theirs, and the four
      properties of a compatibility. */
  predicate ManifestLike(json: Json) {
    && json.Object?
    && json.members.Keys == {"format_version", "package_id", "role", "board_revision", "layout_id", "release",
                             "security_epoch", "key_id", "images", "compatibility", "config_schema", "requires"}
    && Hex(json.members["package_id"], 32)
    && json.members["images"].Arr?
    && 1 <= |json.members["images"].elements| <= 2
    && (forall i :: 0 <= i < |json.members["images"].elements| ==> ImageLike(json.members["images"].elements[i]))
    && json.members["compatibility"].Object?
    && json.members["compatibility"].members.Keys == {"esp", "stm", "peer", "allowed_pairs"}
  }

  lemma {:induction false} HexReady(s: seq<Utf8.codepoint>)
    ensures FromHex(s).Some? <==> |s| % 2 == 0 && forall i :: 0 <= i < |s| ==> HexLike(s[i])
    decreases |s|
  {
    if |s| >= 2 {
      HexReady(s[2..]);
      assert forall i :: 2 <= i < |s| ==> s[i] == s[2..][i - 2];
    }
  }

  lemma HexSlotReady(name: string, digits: nat, json: Json)
    requires digits > 0 && digits % 2 == 0
    ensures SlotOf(Field(name, digits), json).Ok? <==> Hex(json, digits)
  {
    if json.Str? {
      HexReady(json.characters);
    }
    hide FromHex;
  }

  lemma {:induction false} SlotsReady(members: map<string, Json>, fields: seq<Field>)
    requires forall i :: 0 <= i < |fields| ==> fields[i].name in members
    ensures SlotsOf(members, fields).Ok? <==>
              forall i :: 0 <= i < |fields| ==> SlotOf(fields[i], members[fields[i].name]).Ok?
    ensures SlotsOf(members, fields).Err? ==> SlotsOf(members, fields) == Err(Malformed)
  {
    if fields != [] {
      SlotsReady(members, fields[1..]);
      assert forall i :: 0 < i < |fields| ==> fields[i] == fields[1..][i - 1];
      hide FromHex;
    }
  }

  lemma FieldsReady(json: Json, fields: seq<Field>)
    ensures FieldsSpec(json, fields).Ok? <==>
              && json.Object? && json.members.Keys == Names(fields)
              && forall i :: 0 <= i < |fields| && fields[i].name in json.members ==>
                   SlotOf(fields[i], json.members[fields[i].name]).Ok?
    ensures FieldsSpec(json, fields).Err? ==> FieldsSpec(json, fields) == Err(Malformed)
  {
    if json.Object? && json.members.Keys == Names(fields) {
      NamesPresent(json.members, fields);
      SlotsReady(json.members, fields);
    }
    hide SlotsOf, SlotOf, Names;
  }

  lemma ImageReady(json: Json)
    ensures FieldsSpec(json, IMAGE).Ok? <==> ImageLike(json)
    ensures FieldsSpec(json, IMAGE).Err? ==> FieldsSpec(json, IMAGE) == Err(Malformed)
  {
    FieldsReady(json, IMAGE);
    ImageNames();
    hide FieldsSpec, IMAGE, Names, Hex, FromHex;
    if json.Object? && json.members.Keys == {"target", "length", "sha256", "version", "release_sequence", "signature", "abi"} {
      HexSlotReady("sha256", 64, json.members["sha256"]);
    }
  }

  lemma {:induction false} ImagesReady(images: seq<Json>)
    ensures ImageValues(images).Ok? <==> forall i :: 0 <= i < |images| ==> ImageLike(images[i])
    ensures ImageValues(images).Err? ==> ImageValues(images) == Err(Malformed)
  {
    hide ImageLike, FieldsSpec, SlotsValue, IMAGE;
    if images != [] {
      ImageReady(images[0]);
      ImagesReady(images[1..]);
      assert forall i :: 0 < i < |images| ==> images[i] == images[1..][i - 1];
    }
  }

  lemma RootReady(json: Json)
    ensures FieldsSpec(json, ROOT).Ok? <==>
              && json.Object?
              && json.members.Keys == {"format_version", "package_id", "role", "board_revision", "layout_id", "release",
                                       "security_epoch", "key_id", "images", "compatibility", "config_schema", "requires"}
              && Hex(json.members["package_id"], 32)
    ensures FieldsSpec(json, ROOT).Err? ==> FieldsSpec(json, ROOT) == Err(Malformed)
    ensures FieldsSpec(json, ROOT).Ok? ==>
              var slots := FieldsSpec(json, ROOT).value;
              slots[8] == Raw(json.members["images"]) && slots[9] == Raw(json.members["compatibility"])
  {
    FieldsReady(json, ROOT);
    RootFields();
    RootNames();
    hide FieldsSpec, ROOT, Names, Hex, FromHex;
    if json.Object? && "package_id" in json.members {
      HexSlotReady("package_id", 32, json.members["package_id"]);
    }
    if FieldsSpec(json, ROOT).Ok? {
      FieldsMeaning(json, ROOT, FieldsSpec(json, ROOT).value);
    }
  }

  lemma CompatibilityReady(json: Json)
    ensures FieldsSpec(json, COMPATIBILITY).Ok? <==>
              json.Object? && json.members.Keys == {"esp", "stm", "peer", "allowed_pairs"}
    ensures FieldsSpec(json, COMPATIBILITY).Err? ==> FieldsSpec(json, COMPATIBILITY) == Err(Malformed)
  {
    FieldsReady(json, COMPATIBILITY);
    CompatibilityNames();
    hide FieldsSpec, COMPATIBILITY, Names, FromHex;
  }

  /** A JSON value has the shape of a manifest, or is malformed. */
  lemma ShapeReady(source: Json)
    ensures Shape(source).Ok? <==> ManifestLike(source)
    ensures Shape(source).Err? ==> Shape(source) == Err(Malformed)
    ensures Shape(source).Ok? ==>
              ImageValues(source.members["images"].elements) == Ok(ImagesIn(Shape(source).value))
  {
    RootReady(source);
    hide FieldsSpec, ROOT, COMPATIBILITY, Hex, ImageLike, ImageValues, SlotsValue;
    if FieldsSpec(source, ROOT).Ok? {
      CompatibilityReady(source.members["compatibility"]);
      if source.members["images"].Arr? {
        ImagesReady(source.members["images"].elements);
      }
      SlotsAt(FieldsSpec(source, ROOT).value);
    }
  }

  /** What stands for a JSON object inside a manifest: it has no integer keys, so that only an empty one can pass for a
      dict. */
  lemma ObjectValue(members: map<string, Json>)
    ensures ValueOf(Object(members)) == if members == map[] then Dict(map[]) else Record(|members|)
  {
  }

  // ---------------------------------------------------------------- the declared sizes

  function Member(json: Json, name: string): Json {
    if json.Object? && name in json.members then json.members[name] else Literal
  }

  /** Zero for anything but a number. */
  function NumberOf(json: Json): int {
    if json.Num? then json.n else 0
  }

  /** The target and the length of one image. */
  function SizeComplaint(target: int, length: int): Option<Status> {
    Then(When(target < 1 || target > 4 || length < 1, Malformed),
         When((target == 1 && length > 4194304) || (target == 2 && length > 184320)
              || (target == 3 && length > 4194304) || (target == 4 && length > 2621440), Oversize))
  }

  function SizesComplaint(images: seq<Json>): Option<Status> {
    if images == [] then None
    else
      Then(SizeComplaint(NumberOf(Member(images[0], "target")), NumberOf(Member(images[0], "length"))),
           SizesComplaint(images[1..]))
  }

  lemma ImageSlots(json: Json)
    requires ImageLike(json)
    ensures FieldsSpec(json, IMAGE).Ok?
    ensures var v := SlotsValue(FieldsSpec(json, IMAGE).value);
            && v.Dict? && 0 in v.entries && 1 in v.entries
            && v.entries[0] == ValueOf(Member(json, "target")) && v.entries[1] == ValueOf(Member(json, "length"))
  {
    ImageReady(json);
    ImageNames();
    var slots := FieldsSpec(json, IMAGE).value;
    FieldsMeaning(json, IMAGE, slots);
    SlotsAt(slots);
    hide FieldsSpec, IMAGE, Names, SlotsValue, ValueOf, Hex, FromHex;
  }

  lemma SizeStep(v: Value, rest: seq<Value>, start: nat, target: int, length: int)
    requires v.Dict? && 0 in v.entries && 1 in v.entries
    requires NumberIs(v.entries[0], target) && NumberIs(v.entries[1], length)
    ensures var r := AnnouncedTotal([v] + rest, start);
            if SizeComplaint(target, length).Some? then r == Err(SizeComplaint(target, length).value)
            else length > 0 && r == AnnouncedTotal(rest, E.ImageOffset(start) + length)
  {
    assert ([v] + rest)[0] == v && ([v] + rest)[1..] == rest;
    hide E.ImageOffset;
  }

  /** The number `n`, or no number and `n` is zero. */
  predicate NumberIs(v: Value, n: int) {
    if v.Int? then v.n == n else n == 0
  }

  lemma NumberRead(json: Json)
    ensures NumberIs(ValueOf(json), NumberOf(json))
  {
  }

  /** The declared sizes are refused for the first image whose target or length is wrong. */
  lemma {:induction false} SizesComplain(images: seq<Json>, start: nat)
    requires forall i :: 0 <= i < |images| ==> ImageLike(images[i])
    ensures ImageValues(images).Ok? && Of(AnnouncedTotal(ImageValues(images).value, start)) == SizesComplaint(images)
    decreases |images|
  {
    hide ImageLike, FieldsSpec, SlotsValue, IMAGE, AnnouncedTotal, SizeComplaint, E.ImageOffset, Member, NumberOf, NumberIs,
      ValueOf;
    if images == [] {
      AnnouncedNothing(start);
    } else {
      var json, rest := images[0], images[1..];
      assert forall i :: 0 <= i < |rest| ==> rest[i] == images[i + 1];
      ImageSlots(json);
      ImagesReady(images);
      var target, length := NumberOf(Member(json, "target")), NumberOf(Member(json, "length"));
      NumberRead(Member(json, "target"));
      NumberRead(Member(json, "length"));
      var v := SlotsValue(FieldsSpec(json, IMAGE).value);
      SizesComplain(rest, start);
      SizeStep(v, ImageValues(rest).value, start, target, length);
      if SizeComplaint(target, length).None? {
        SizesComplain(rest, E.ImageOffset(start) + length);
      }
    }
  }

  lemma AnnouncedNothing(start: nat)
    ensures AnnouncedTotal([], start) == Ok(start)
  {
  }

  // ---------------------------------------------------------------- the manifest check on the own encoding

  predicate Lengthy(lengths: seq<nat>) {
    forall i :: 0 <= i < |lengths| ==> 1 <= lengths[i] <= 4194304
  }

  /** An announced total is that of lengths within the image limit. */
  lemma {:induction false} AnnouncedLengths(vs: seq<Value>, start: nat) returns (lengths: seq<nat>)
    requires AnnouncedTotal(vs, start).Ok?
    ensures |lengths| == |vs| && Lengthy(lengths) && AnnouncedTotal(vs, start) == Ok(E.Total(start, lengths))
    decreases |vs|
  {
    hide E.ImageOffset;
    if vs == [] {
      lengths := [];
    } else {
      var length := vs[0].entries[1].n;
      var rest := AnnouncedLengths(vs[1..], E.ImageOffset(start) + length);
      lengths := [length] + rest;
      assert lengths[1..] == rest;
    }
  }

  lemma AnnouncedFits(vs: seq<Value>, start: nat)
    requires AnnouncedTotal(vs, start).Ok? && 1 <= |vs| <= 3 && start <= E.MAX_PREFIX
    ensures E.ImageOffset(start) + |vs| <= AnnouncedTotal(vs, start).value <= E.MAX_BUNDLE
  {
    hide AnnouncedTotal, E.ImageOffset;
    var lengths := AnnouncedLengths(vs, start);
    E.BundleFits(start, lengths);
    M.TotalGrows(E.ImageOffset(start) + lengths[0], lengths[1..]);
  }

  lemma {:induction false} AnnouncedWithin(vs: seq<Value>, start: nat)
    requires AnnouncedTotal(vs, start).Ok? && M.TypeImages(vs).Ok?
    ensures WithinLimits(M.TypeImages(vs).value)
    decreases |vs|
  {
    hide M.TypeImages, M.TypeImage, E.ImageOffset, M.ImageLimit, M.ImageLengths;
    if vs == [] {
      NothingAnnounced(vs, start);
    } else {
      var first, rest := TypedImagesSplit(vs);
      TypedImageHead(vs[0]);
      AnnouncedWithin(vs[1..], E.ImageOffset(start) + first.length);
      assert [first] + rest == M.TypeImages(vs).value;
    }
  }

  function OwnPrefix(document: seq<byte>, count: nat, total: nat): seq<byte> {
    E.Pack(E.HeaderFor(|document|, count, total)) + document + Zeros(E.SIGNATURE_BYTES)
  }

  lemma OwnPrefixAccepted(v: Value, document: seq<byte>, count: nat, total: nat)
    requires EncodeDocument(v) == Ok(document) && 1 <= count <= 3
    requires E.ImageOffset(E.PrefixSize(|document|)) + count <= total <= E.MAX_BUNDLE
    ensures var prefix := OwnPrefix(document, count, total);
            && E.CheckPrefix(prefix, AcceptAll) == Ok(v)
            && |prefix| == 88 + |document|
            && E.Unpack(prefix) == E.HeaderFor(|document|, count, total)
  {
    var prefix := OwnPrefix(document, count, total);
    assert E.PrefixOf(prefix, AcceptAll, v, document, Zeros(E.SIGNATURE_BYTES), count, total) by {
      hide E.Pack, EncodeDocument, E.ImageOffset;
    }
    E.PrefixAccepted(prefix, AcceptAll, v, document, Zeros(E.SIGNATURE_BYTES), count, total);
    hide E.CheckPrefix, E.Unpack, E.Pack, EncodeDocument, E.ImageOffset, OwnPrefix;
  }

  /** What the manifest check finds in the loader's own encoding: complaints about the typed walk and about the cross
      checks, with the total that belongs to the images. */
  ghost function OwnComplaint(v: Value, size: nat): Option<Status> {
    Then(ManifestErrors.WalkComplaint(v),
         match M.TypeDocument(v)
         case Err(_) => None
         case Ok(d) =>
           ManifestErrors.CrossComplaint(d, M.IdentityOf(d), size, |d.images|, E.Total(size, M.ImageLengths(d.images))))
  }

  lemma OwnChecked(v: Value, document: seq<byte>, total: nat)
    requires EncodeDocument(v) == Ok(document) && 1 <= |ImagesIn(v)| <= 3
    requires AnnouncedTotal(ImagesIn(v), 88 + |document|) == Ok(total)
    ensures Of(M.CheckManifestSpec(OwnPrefix(document, |ImagesIn(v)|, total), OwnIdentity(v), AcceptAll))
         == OwnComplaint(v, 88 + |document|)
  {
    var images, size := ImagesIn(v), 88 + |document|;
    hide EncodeDocument, AnnouncedTotal, ImagesIn, E.CheckPrefix, M.TypeDocument, E.Unpack, E.ImageOffset, OwnIdentity,
      M.CheckDocument, ManifestErrors.WalkComplaint, ManifestErrors.CrossComplaint, OwnPrefix, M.ImageLengths, E.Total,
      M.TypeImages, WithinLimits;
    E.DocumentFits(v);
    AnnouncedFits(images, size);
    OwnPrefixAccepted(v, document, |images|, total);
    ManifestErrors.WalkComplains(v);
    if M.TypeDocument(v).Ok? {
      var d := M.TypeDocument(v).value;
      OwnIs(v, d);
      TypedImagesIn(v);
      AnnouncedWithin(images, size);
      TotalsAgree(images, size);
      M.TypedDocument(v);
      ManifestErrors.CrossComplains(d, OwnIdentity(v), size, |images|, total);
    }
  }

  // ---------------------------------------------------------------- the whole loader

  ghost function LoadComplaint(source: Json): Option<Status> {
    Then(When(!ManifestLike(source), Malformed),
         match Shape(source)
         case Err(_) => None
         case Ok(v) =>
           match EncodeDocument(v)
           case Err(e) => Some(e)
           case Ok(document) =>
             Then(SizesComplaint(if Member(source, "images").Arr? then Member(source, "images").elements else []),
                  OwnComplaint(v, 88 + |document|)))
  }

  /** The loader refuses a manifest for its first complaint. */
  lemma LoadComplains(source: Json)
    ensures Of(LoadSpec(source)) == LoadComplaint(source)
  {
    hide Shape, EncodeDocument, AnnouncedTotal, ImagesIn, M.CheckManifestSpec, OwnIdentity, ManifestLike, OwnComplaint,
      SizesComplaint, ImageValues, E.Pack;
    ShapeReady(source);
    if Shape(source).Ok? {
      var v := Shape(source).value;
      var images := ManifestImages(source);
      if EncodeDocument(v).Ok? {
        var document := EncodeDocument(v).value;
        SizesComplain(images, 88 + |document|);
        if AnnouncedTotal(ImagesIn(v), 88 + |document|).Ok? {
          OwnChecked(v, document, AnnouncedTotal(ImagesIn(v), 88 + |document|).value);
        }
      }
    }
  }

  lemma ManifestImages(source: Json) returns (images: seq<Json>)
    requires ManifestLike(source)
    ensures source.Object? && "images" in source.members && source.members["images"] == Arr(images)
    ensures Member(source, "images") == Arr(images) && 1 <= |images| <= 2
    ensures forall i :: 0 <= i < |images| ==> ImageLike(images[i])
  {
    hide ImageLike, Hex;
    images := source.members["images"].elements;
  }
}
