/** From a parsed JSON manifest to the typed dict the packager signs, after tools/ota/manifest_json.py. */
module ManifestJson {
  import opened Prelude
  import Utf8
  import opened Cbor
  import CborMachine
  import CborProofs
  import E = Envelope
  import M = Manifest
  import ManifestEncoding

  /** A parsed JSON text; numbers other than integers never get this far. */
  datatype Json =
    | Object(members: map<string, Json>)
    | Str(characters: seq<Utf8.codepoint>)
    | Num(n: int)
    | Arr(elements: seq<Json>)
    | Literal

  /** A schema property, listed at the position of its CBOR key; `hexDigits` is 0 unless the property
      is a hex string of that many digits. */
  datatype Field = Field(name: string, hexDigits: nat)

  const ROOT: seq<Field> := [
    Field("format_version", 0), Field("package_id", 32), Field("role", 0), Field("board_revision", 0),
    Field("layout_id", 0), Field("release", 0), Field("security_epoch", 0), Field("key_id", 0),
    Field("images", 0), Field("compatibility", 0), Field("config_schema", 0), Field("requires", 0)]

  const IMAGE: seq<Field> := [
    Field("target", 0), Field("length", 0), Field("sha256", 64), Field("version", 0),
    Field("release_sequence", 0), Field("signature", 0), Field("abi", 0)]

  const COMPATIBILITY: seq<Field> := [Field("esp", 0), Field("stm", 0), Field("peer", 0), Field("allowed_pairs", 0)]

  /** What a property holds after `_fields`: bytes, or the JSON value as it came. */
  datatype Slot = Blob(raw: seq<byte>) | Raw(json: Json)

  function HexDigit(c: Utf8.codepoint): Option<nat> {
    if 0x30 <= c <= 0x39 then Some(c - 0x30) else if 0x61 <= c <= 0x66 then Some(c - 0x61 + 10) else None
  }

  /** `bytes.fromhex` of lower-case digits; anything else does not match the pattern. */
  function FromHex(s: seq<Utf8.codepoint>): Option<seq<byte>> {
    if s == [] then Some([])
    else if |s| == 1 then None
    else
      var high, low, rest := HexDigit(s[0]), HexDigit(s[1]), FromHex(s[2..]);
      if high.None? || low.None? || rest.None? then None else Some([high.value * 16 + low.value] + rest.value)
  }

  function SlotOf(field: Field, json: Json): Result<Slot, Status> {
    if field.hexDigits == 0 then Ok(Raw(json))
    else if !json.Str? || |json.characters| != field.hexDigits || FromHex(json.characters).None? then Err(Malformed)
    else Ok(Blob(FromHex(json.characters).value))
  }

  function Names(fields: seq<Field>): set<string> {
    set i | 0 <= i < |fields| :: fields[i].name
  }

  function SlotsOf(members: map<string, Json>, fields: seq<Field>): (r: Result<seq<Slot>, Status>)
    requires forall i :: 0 <= i < |fields| ==> fields[i].name in members
    ensures r.Ok? ==> |r.value| == |fields|
  {
    if fields == [] then Ok([])
    else
      var first :- SlotOf(fields[0], members[fields[0].name]);
      var rest :- SlotsOf(members, fields[1..]);
      Ok([first] + rest)
  }

  function FieldsSpec(json: Json, fields: seq<Field>): (r: Result<seq<Slot>, Status>)
    ensures r.Ok? ==> |r.value| == |fields|
  {
    if !json.Object? || json.members.Keys != Names(fields) then Err(Malformed)
    else
      NamesPresent(json.members, fields);
      SlotsOf(json.members, fields)
  }

  lemma NamesPresent(members: map<string, Json>, fields: seq<Field>)
    requires members.Keys == Names(fields)
    ensures forall i :: 0 <= i < |fields| ==> fields[i].name in members
  {
    forall i | 0 <= i < |fields| ensures fields[i].name in members {
      assert fields[i].name in Names(fields);
    }
  }

  method Fields(json: Json, fields: seq<Field>) returns (r: Result<seq<Slot>, Status>)
    ensures r == FieldsSpec(json, fields)
  {
    if !json.Object? || json.members.Keys != Names(fields) {
      return Err(Malformed);
    }
    NamesPresent(json.members, fields);
    var result: seq<Slot> := [];
    assert fields[0..] == fields;
    SlotsJoin(json.members, fields, [], 0);
    for i := 0 to |fields|
      invariant SlotsOf(json.members, fields) == Prepend(result, SlotsOf(json.members, fields[i..]))
    {
      hide SlotOf;
      SlotsJoin(json.members, fields, result, i);
      var slot :- SlotOf(fields[i], json.members[fields[i].name]);
      result := result + [slot];
    }
    assert result + [] == result;
    r := Ok(result);
  }

  lemma SlotsJoin(members: map<string, Json>, fields: seq<Field>, done: seq<Slot>, i: nat)
    requires i <= |fields| && forall j :: 0 <= j < |fields| ==> fields[j].name in members
    ensures Prepend([], SlotsOf(members, fields)) == SlotsOf(members, fields)
    ensures i < |fields| ==>
              var slot := SlotOf(fields[i], members[fields[i].name]);
              Prepend(done, SlotsOf(members, fields[i..]))
                == if slot.Err? then Err(slot.error) else Prepend(done + [slot.value], SlotsOf(members, fields[i + 1..]))
  {
    hide SlotOf;
    PrependStep([], [], SlotsOf(members, fields));
    if i < |fields| {
      assert fields[i..][0] == fields[i] && fields[i..][1..] == fields[i + 1..];
      var slot := SlotOf(fields[i], members[fields[i].name]);
      if slot.Ok? {
        PrependStep(done, [slot.value], SlotsOf(members, fields[i + 1..]));
      }
    }
  }

  /** The Python object a JSON value is; the keys of a JSON object are strings, not integers. */
  function ValueOf(json: Json): Value {
    match json
    case Object(members) => if |members| == 0 then Dict(map[]) else Record(|members|)
    case Str(characters) => Text(characters)
    case Num(n) => Int(n)
    case Arr(elements) => List(seq(|elements|, i requires 0 <= i < |elements| => ValueOf(elements[i])))
    case Literal => Other
  }

  function SlotValue(slot: Slot): Value {
    match slot
    case Blob(raw) => Bytes(raw)
    case Raw(json) => ValueOf(json)
  }

  function SlotsValue(slots: seq<Slot>): Value {
    Dict(map i: nat | i < |slots| :: SlotValue(slots[i]))
  }

  function ImageValues(images: seq<Json>): (r: Result<seq<Value>, Status>)
    ensures r.Ok? ==> |r.value| == |images|
  {
    if images == [] then Ok([])
    else
      var slots :- FieldsSpec(images[0], IMAGE);
      var rest :- ImageValues(images[1..]);
      Ok([SlotsValue(slots)] + rest)
  }

  /** The dict with integer keys that the JSON manifest describes. */
  function Shape(source: Json): Result<Value, Status> {
    var root :- FieldsSpec(source, ROOT);
    if !root[8].Raw? || !root[8].json.Arr? || !(1 <= |root[8].json.elements| <= 2) then Err(Malformed)
    else
      var images :- ImageValues(root[8].json.elements);
      if !root[9].Raw? then Err(Malformed)
      else
        var compatibility :- FieldsSpec(root[9].json, COMPATIBILITY);
        var m := SlotsValue(root).entries;
        Ok(Dict(m[8 := List(images)][9 := SlotsValue(compatibility)]))
  }

  /** The total the loader announces in its synthetic header. */
  function AnnouncedTotal(images: seq<Value>, total: nat): Result<nat, Status>
    decreases |images|
  {
    if images == [] then Ok(total)
    else
      var image := images[0];
      if !(image.Dict? && 0 in image.entries && 1 in image.entries) then Err(Malformed)
      else
        var target, length := image.entries[0], image.entries[1];
        if !target.Int? || !(1 <= target.n <= 4) || !length.Int? || length.n <= 0 then Err(Malformed)
        else if length.n > M.ImageLimit(target.n) then Err(Oversize)
        else AnnouncedTotal(images[1..], E.ImageOffset(total) + length.n)
  }

  const AcceptAll: E.Verify := (_, _) => None

  /** The identity the manifest claims for itself. */
  function OwnIdentity(v: Value): M.Identity {
    var d := M.TypeDocument(v);
    if d.Ok? then M.IdentityOf(d.value) else M.Identity(0, [], [], 0, 0)
  }

  function ImagesIn(v: Value): seq<Value> {
    if v.Dict? && 8 in v.entries && v.entries[8].List? then v.entries[8].elements else []
  }

  function LoadSpec(source: Json): Result<Value, Status> {
    var v :- Shape(source);
    var document :- EncodeDocument(v);
    var images := ImagesIn(v);
    var total :- AnnouncedTotal(images, E.PrefixSize(|document|));
    var prefix := E.Pack(E.HeaderFor(|document|, |images|, total)) + document + Zeros(E.SIGNATURE_BYTES);
    var _ :- M.CheckManifestSpec(prefix, OwnIdentity(v), AcceptAll);
    Ok(v)
  }

  method Load(source: Json) returns (r: Result<Value, Status>)
    ensures r == LoadSpec(source)
  {
    hide EncodeDocument, M.CheckManifestSpec, AnnouncedTotal, ImagesIn;
    var v :- Shaped(source);
    var document :- CborMachine.Encode(v);
    var images := ImagesIn(v);
    var total :- Totalled(images, E.PrefixSize(|document|));
    var prefix := E.Pack(E.HeaderFor(|document|, |images|, total)) + document + Zeros(E.SIGNATURE_BYTES);
    var _ :- M.CheckManifest(prefix, OwnIdentity(v), AcceptAll);
    r := Ok(v);
  }

  method Shaped(source: Json) returns (r: Result<Value, Status>)
    ensures r == Shape(source)
  {
    hide FieldsSpec, ImageValues;
    var root :- Fields(source, ROOT);
    if !root[8].Raw? || !root[8].json.Arr? || !(1 <= |root[8].json.elements| <= 2) {
      return Err(Malformed);
    }
    var images :- ImagesShaped(root[8].json.elements);
    if !root[9].Raw? {
      return Err(Malformed);
    }
    var compatibility :- Fields(root[9].json, COMPATIBILITY);
    var m := SlotsValue(root).entries;
    r := Ok(Dict(m[8 := List(images)][9 := SlotsValue(compatibility)]));
  }

  method ImagesShaped(images: seq<Json>) returns (r: Result<seq<Value>, Status>)
    ensures r == ImageValues(images)
  {
    var result: seq<Value> := [];
    assert images[0..] == images;
    ImagesJoin(images, [], 0);
    for i := 0 to |images|
      invariant ImageValues(images) == Prepend(result, ImageValues(images[i..]))
    {
      hide FieldsSpec, SlotsValue;
      ImagesJoin(images, result, i);
      var slots :- Fields(images[i], IMAGE);
      result := result + [SlotsValue(slots)];
    }
    assert result + [] == result;
    r := Ok(result);
  }

  lemma ImagesJoin(images: seq<Json>, done: seq<Value>, i: nat)
    requires i <= |images|
    ensures Prepend([], ImageValues(images)) == ImageValues(images)
    ensures i < |images| ==>
              var slots := FieldsSpec(images[i], IMAGE);
              Prepend(done, ImageValues(images[i..]))
                == if slots.Err? then Err(slots.error)
                   else Prepend(done + [SlotsValue(slots.value)], ImageValues(images[i + 1..]))
  {
    hide FieldsSpec, SlotsValue, IMAGE;
    PrependStep([], [], ImageValues(images));
    if i < |images| {
      assert images[i..][0] == images[i] && images[i..][1..] == images[i + 1..];
      var slots := FieldsSpec(images[i], IMAGE);
      if slots.Ok? {
        PrependStep(done, [SlotsValue(slots.value)], ImageValues(images[i + 1..]));
      }
    }
  }

  method Totalled(images: seq<Value>, start: nat) returns (r: Result<nat, Status>)
    ensures r == AnnouncedTotal(images, start)
  {
    var total: nat := start;
    assert images[0..] == images;
    for i := 0 to |images|
      invariant AnnouncedTotal(images, start) == AnnouncedTotal(images[i..], total)
    {
      assert images[i..][0] == images[i] && images[i..][1..] == images[i + 1..];
      var image := images[i];
      if !(image.Dict? && 0 in image.entries && 1 in image.entries) {
        return Err(Malformed);
      }
      var target, length := image.entries[0], image.entries[1];
      if !target.Int? || !(1 <= target.n <= 4) || !length.Int? || length.n <= 0 {
        return Err(Malformed);
      }
      if length.n > M.ImageLimit(target.n) {
        return Err(Oversize);
      }
      total := E.ImageOffset(total) + length.n;
    }
    r := Ok(total);
  }

  // ---------------------------------------------------------------- three loops, one layout

  /** For images that pass the typed walk and keep to their limits, the loader announces the very total
      that the assembler lays out and the manifest check recomputes. */
  lemma {:induction false} TotalsAgree(vs: seq<Value>, start: nat)
    requires M.TypeImages(vs).Ok? && WithinLimits(M.TypeImages(vs).value)
    ensures AnnouncedTotal(vs, start) == Ok(E.Total(start, M.ImageLengths(M.TypeImages(vs).value)))
    decreases |vs|
  {
    hide *;
    if vs == [] {
      NothingAnnounced(vs, start);
    } else {
      var first, rest := TypedImagesSplit(vs);
      TypedImageHead(vs[0]);
      LimitsSplit(first, rest);
      TotalsAgree(vs[1..], E.ImageOffset(start) + first.length);
      AnnouncedStep(vs, start, first);
      TotalStep(start, first, rest);
    }
  }

  lemma NothingAnnounced(vs: seq<Value>, start: nat)
    requires vs == []
    ensures M.TypeImages(vs) == Ok([]) && AnnouncedTotal(vs, start) == Ok(E.Total(start, M.ImageLengths([])))
  {
  }

  predicate WithinLimits(images: seq<M.Image>) {
    forall i :: 0 <= i < |images| ==>
      M.KnownTarget(images[i].target) && 1 <= images[i].length <= M.ImageLimit(images[i].target)
  }

  lemma LimitsSplit(first: M.Image, rest: seq<M.Image>)
    requires WithinLimits([first] + rest)
    ensures M.KnownTarget(first.target) && 1 <= first.length <= M.ImageLimit(first.target) && WithinLimits(rest)
  {
    assert ([first] + rest)[0] == first;
    forall i | 0 <= i < |rest|
      ensures M.KnownTarget(rest[i].target) && 1 <= rest[i].length <= M.ImageLimit(rest[i].target)
    {
      assert rest[i] == ([first] + rest)[i + 1];
    }
  }

  lemma AnnouncedStep(vs: seq<Value>, start: nat, first: M.Image)
    requires vs != [] && vs[0].Dict? && 0 in vs[0].entries && 1 in vs[0].entries
    requires vs[0].entries[0] == Int(first.target) && vs[0].entries[1] == Int(first.length)
    requires M.KnownTarget(first.target) && 1 <= first.length <= M.ImageLimit(first.target)
    ensures AnnouncedTotal(vs, start) == AnnouncedTotal(vs[1..], E.ImageOffset(start) + first.length)
  {
  }

  lemma TotalStep(start: nat, first: M.Image, rest: seq<M.Image>)
    ensures E.Total(start, M.ImageLengths([first] + rest))
         == E.Total(E.ImageOffset(start) + first.length, M.ImageLengths(rest))
  {
    assert M.ImageLengths([first] + rest)[1..] == M.ImageLengths(rest);
  }

  lemma TypedImagesSplit(vs: seq<Value>) returns (first: M.Image, rest: seq<M.Image>)
    requires vs != [] && M.TypeImages(vs).Ok?
    ensures M.TypeImage(vs[0]) == Ok(first) && M.TypeImages(vs[1..]) == Ok(rest)
    ensures M.TypeImages(vs) == Ok([first] + rest)
    ensures M.ImageLengths([first] + rest) == [first.length] + M.ImageLengths(rest)
    ensures M.ImageLengths([first] + rest)[1..] == M.ImageLengths(rest)
  {
    hide M.TypeImage;
    first, rest := M.TypeImage(vs[0]).value, M.TypeImages(vs[1..]).value;
  }

  lemma TypedImageHead(v: Value)
    requires M.TypeImage(v).Ok?
    ensures v.Dict? && 0 in v.entries && 1 in v.entries
    ensures v.entries[0] == Int(M.TypeImage(v).value.target) && v.entries[1] == Int(M.TypeImage(v).value.length)
    ensures M.KnownTarget(M.TypeImage(v).value.target)
  {
    hide M.TextOf, M.BytesOf;
  }

  /** The loader accepts exactly the manifests that have the right shape, pass the typed walk, and are valid for
      the identity they claim: whatever passes the typed walk can be encoded. */
  lemma LoadMeaning(source: Json, v: Value)
    ensures LoadSpec(source) == Ok(v) <==>
              && Shape(source) == Ok(v)
              && M.TypeDocument(v).Ok?
              && M.ValidFor(M.TypeDocument(v).value, OwnIdentity(v))
  {
    hide *;
    if LoadSpec(source) == Ok(v) {
      LoadedIsValid(source, v);
    }
    if Shape(source) == Ok(v) && M.TypeDocument(v).Ok? && M.ValidFor(M.TypeDocument(v).value, OwnIdentity(v)) {
      ManifestEncoding.TypedEncodes(v);
      ValidIsLoaded(source, v);
    }
  }

  lemma TypedImagesIn(v: Value)
    requires M.TypeDocument(v).Ok?
    ensures M.TypeImages(ImagesIn(v)) == Ok(M.TypeDocument(v).value.images)
    ensures |ImagesIn(v)| == |M.TypeDocument(v).value.images|
  {
    hide M.TypeImages, M.TypeScalars, M.TypeCompatibility, M.TypeTriple;
  }

  lemma ValidIsLoaded(source: Json, v: Value)
    requires Shape(source) == Ok(v) && EncodeDocument(v).Ok? && M.TypeDocument(v).Ok?
    requires M.ValidFor(M.TypeDocument(v).value, OwnIdentity(v))
    ensures LoadSpec(source) == Ok(v)
  {
    var document, d := EncodeDocument(v).value, M.TypeDocument(v).value;
    var size, lengths := E.PrefixSize(|document|), M.ImageLengths(d.images);
    E.DocumentFits(v);
    M.TypedDocument(v);
    TypedImagesIn(v);
    ValidImages(d, OwnIdentity(v));
    TotalsAgree(ImagesIn(v), size);
    M.ValidTotal(d, OwnIdentity(v), size);
    var total := E.Total(size, lengths);
    var prefix := E.Pack(E.HeaderFor(|document|, |d.images|, total)) + document + Zeros(E.SIGNATURE_BYTES);
    assert E.PrefixOf(prefix, AcceptAll, v, document, Zeros(E.SIGNATURE_BYTES), |d.images|, total) by {
      hide E.Pack, EncodeDocument, M.TypeDocument, M.ValidFor, E.Total, E.ImageOffset;
    }
    E.PrefixAccepted(prefix, AcceptAll, v, document, Zeros(E.SIGNATURE_BYTES), |d.images|, total);
    M.CheckManifestAccepts(prefix, OwnIdentity(v), AcceptAll, v, document, Zeros(E.SIGNATURE_BYTES), |d.images|, total);
    hide Shape, EncodeDocument, M.TypeDocument, M.ValidFor, M.CheckManifestSpec, AnnouncedTotal, ImagesIn, E.Pack, OwnIdentity, E.Total;
  }

  lemma ValidImages(d: M.Document, identity: M.Identity)
    requires M.ValidFor(d, identity)
    ensures WithinLimits(d.images)
  {
  }

  lemma LoadedIsValid(source: Json, v: Value)
    requires LoadSpec(source) == Ok(v)
    ensures Shape(source) == Ok(v) && EncodeDocument(v).Ok? && M.TypeDocument(v).Ok?
    ensures M.ValidFor(M.TypeDocument(v).value, OwnIdentity(v))
  {
    var prefix, document, total := LoadUnfold(source, v);
    var w := E.CheckPrefix(prefix, AcceptAll).value;
    E.CheckPrefixMeaning(prefix, AcceptAll, w);
    var other: seq<byte>, signature: seq<byte>, n: nat, t: nat
      :| E.PrefixOf(prefix, AcceptAll, w, other, signature, n, t);
    E.PrefixAccepted(prefix, AcceptAll, w, other, signature, n, t);
    M.CheckManifestAccepts(prefix, OwnIdentity(v), AcceptAll, w, other, signature, n, t);
    E.HeaderRoundTrip(E.HeaderFor(|other|, n, t), prefix);
    SamePrefix(prefix, document, |ImagesIn(v)|, total, other, signature, n, t);
    CborProofs.DocumentBijection(v, document);
    CborProofs.DocumentBijection(w, document);
    hide *;
  }

  lemma LoadUnfold(source: Json, v: Value) returns (prefix: seq<byte>, document: seq<byte>, total: nat)
    requires LoadSpec(source) == Ok(v)
    ensures Shape(source) == Ok(v) && EncodeDocument(v) == Ok(document)
    ensures prefix == E.Pack(E.HeaderFor(|document|, |ImagesIn(v)|, total)) + document + Zeros(E.SIGNATURE_BYTES)
    ensures M.CheckManifestSpec(prefix, OwnIdentity(v), AcceptAll).Ok?
  {
    hide Shape, EncodeDocument, AnnouncedTotal, ImagesIn, M.CheckManifestSpec, E.Pack, OwnIdentity;
    document := EncodeDocument(v).value;
    total := AnnouncedTotal(ImagesIn(v), E.PrefixSize(|document|)).value;
    prefix := E.Pack(E.HeaderFor(|document|, |ImagesIn(v)|, total)) + document + Zeros(E.SIGNATURE_BYTES);
  }

  lemma SamePrefix(prefix: seq<byte>, a: seq<byte>, count: nat, total: nat, b: seq<byte>, signature: seq<byte>, n: nat, t: nat)
    requires prefix == E.Pack(E.HeaderFor(|a|, count, total)) + a + Zeros(E.SIGNATURE_BYTES)
    requires prefix == E.Pack(E.HeaderFor(|b|, n, t)) + b + signature && |signature| == E.SIGNATURE_BYTES
    ensures a == b
  {
    assert |E.Pack(E.HeaderFor(|a|, count, total))| == E.HEADER_SIZE == |E.Pack(E.HeaderFor(|b|, n, t))|;
    hide E.Pack;
    assert a == prefix[E.HEADER_SIZE..|prefix| - E.SIGNATURE_BYTES] == b;
  }

  /** A loaded manifest never disappoints: assembled with images of its declared lengths and any
      signature the verifier accepts, its prefix passes the manifest check with the assembler's total. */
  lemma LoadedManifestPasses(source: Json, v: Value, blobs: seq<seq<byte>>, signature: seq<byte>, verify: E.Verify)
    requires LoadSpec(source) == Ok(v)
    requires M.TypeDocument(v).Ok? ==> E.Lengths(blobs) == M.ImageLengths(M.TypeDocument(v).value.images)
    requires |signature| == E.SIGNATURE_BYTES
    requires EncodeDocument(v).Ok? ==> verify(EncodeDocument(v).value, signature).None?
    ensures var data := E.AssembleSpec(v, blobs, _ => signature);
            && data.Ok?
            && E.PrefixLength(data.value).Ok?
            && E.PrefixLength(data.value).value <= |data.value|
            && var checked := M.CheckManifestSpec(data.value[..E.PrefixLength(data.value).value], OwnIdentity(v), verify);
               checked.Ok? && checked.value.manifest == v && checked.value.total == |data.value|
  {
    LoadMeaning(source, v);
    var document, d := EncodeDocument(v).value, M.TypeDocument(v).value;
    var size := E.PrefixSize(|document|);
    var total := E.Total(size, E.Lengths(blobs));
    var sign: seq<byte> -> seq<byte> := _ => signature;
    E.DocumentFits(v);
    M.TypedDocument(v);
    ValidImages(d, OwnIdentity(v));
    M.ValidTotal(d, OwnIdentity(v), size);
    DeclaredSizes(d, blobs);
    hide *;
    E.AssembleMeaning(v, blobs, sign);
    LoadedPrefix(v, d, document, signature, blobs, verify);
  }

  lemma DeclaredSizes(d: M.Document, blobs: seq<seq<byte>>)
    requires WithinLimits(d.images) && 1 <= |d.images| <= 3 && E.Lengths(blobs) == M.ImageLengths(d.images)
    ensures E.ImagesWellSized(blobs) && |blobs| == |d.images|
  {
    forall i | 0 <= i < |blobs| ensures 1 <= |blobs[i]| <= E.MAX_IMAGE_BYTES {
      assert E.Lengths(blobs)[i] == d.images[i].length;
    }
  }

  lemma LoadedPrefix(v: Value, d: M.Document, document: seq<byte>, signature: seq<byte>, blobs: seq<seq<byte>>, verify: E.Verify)
    requires EncodeDocument(v) == Ok(document) && 1 <= |document| <= MAX_BYTES
    requires |signature| == E.SIGNATURE_BYTES && verify(document, signature).None?
    requires M.TypeDocument(v) == Ok(d) && M.ValidFor(d, OwnIdentity(v)) && 1 <= |d.images| <= 3
    requires E.Lengths(blobs) == M.ImageLengths(d.images)
    requires E.ImageOffset(E.PrefixSize(|document|)) + |d.images|
          <= E.Total(E.PrefixSize(|document|), E.Lengths(blobs)) <= E.MAX_BUNDLE
    ensures var data, size := E.Container(document, signature, blobs), E.PrefixSize(|document|);
            && E.PrefixLength(data) == Ok(size) && size <= |data| == E.Total(size, E.Lengths(blobs))
            && var checked := M.CheckManifestSpec(data[..size], OwnIdentity(v), verify);
               checked.Ok? && checked.value.manifest == v && checked.value.total == |data|
  {
    var data, size := E.Container(document, signature, blobs), E.PrefixSize(|document|);
    var total := E.Total(size, E.Lengths(blobs));
    var h := E.HeaderFor(|document|, |blobs|, total);
    E.BodyLength(size, blobs);
    E.HeaderRoundTrip(h, data);
    hide EncodeDocument, M.TypeDocument, M.ValidFor, OwnIdentity, E.ImageOffset, E.Total, E.Pack, E.Unpack, E.Body, M.CheckManifestSpec;
    assert data[..E.HEADER_SIZE] == E.Pack(h);
    assert data[..size] == E.Pack(h) + document + signature;
    assert E.PrefixOf(data[..size], verify, v, document, signature, |blobs|, total);
    M.CheckManifestAccepts(data[..size], OwnIdentity(v), verify, v, document, signature, |blobs|, total);
  }
}
