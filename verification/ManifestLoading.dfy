/** What the JSON loader accepts, told by printing: exactly the JSON texts of the manifests that keep the rules, each
 *  property by its name. */
module ManifestLoading {
  import opened Prelude
  import Utf8
  import opened Cbor
  import opened ManifestJson
  import E = Envelope
  import M = Manifest
  import ManifestEncoding
  import ManifestRules

  // ---------------------------------------------------------------- hex strings

  function HexChar(n: nat): Utf8.codepoint
    requires n < 16
  {
    if n < 10 then 0x30 + n else 0x61 + (n - 10)
  }

  /** Two lower-case digits for each byte, the high one first. */
  function ToHex(bytes: seq<byte>): seq<Utf8.codepoint> {
    if bytes == [] then [] else [HexChar(bytes[0] / 16), HexChar(bytes[0] % 16)] + ToHex(bytes[1..])
  }

  lemma DigitMeaning(c: Utf8.codepoint, n: nat)
    requires n < 16
    ensures HexDigit(c) == Some(n) <==> c == HexChar(n)
  {
  }

  lemma DigitRange(c: Utf8.codepoint)
    ensures HexDigit(c).Some? ==> HexDigit(c).value < 16
  {
  }

  /** A hex string is read as the bytes it prints. */
  lemma {:induction false} HexMeaning(s: seq<Utf8.codepoint>, bytes: seq<byte>)
    ensures FromHex(s) == Some(bytes) <==> s == ToHex(bytes)
    decreases |s|
  {
    hide HexDigit, HexChar;
    if |s| >= 2 && bytes != [] {
      HexMeaning(s[2..], bytes[1..]);
      HexStep(s, bytes);
      ToHexStep(s, bytes);
    } else if bytes == [] {
      HexNothing(s);
    } else {
      assert |ToHex(bytes)| >= 2;
    }
  }

  lemma HexNothing(s: seq<Utf8.codepoint>)
    ensures FromHex(s) == Some([]) <==> s == []
  {
    if |s| >= 2 && FromHex(s).Some? {
      assert |FromHex(s).value| >= 1;
    }
  }

  lemma HexStep(s: seq<Utf8.codepoint>, bytes: seq<byte>)
    requires |s| >= 2 && bytes != []
    ensures FromHex(s) == Some(bytes) <==>
              s[0] == HexChar(bytes[0] / 16) && s[1] == HexChar(bytes[0] % 16) && FromHex(s[2..]) == Some(bytes[1..])
  {
    var high, low := bytes[0] / 16, bytes[0] % 16;
    DigitMeaning(s[0], high);
    DigitMeaning(s[1], low);
    DigitRange(s[0]);
    DigitRange(s[1]);
    hide HexDigit, HexChar;
    assert bytes == [bytes[0]] + bytes[1..];
    if HexDigit(s[0]).Some? && HexDigit(s[1]).Some? {
      TwoDigits(HexDigit(s[0]).value, HexDigit(s[1]).value, bytes[0]);
    }
  }

  lemma TwoDigits(high: nat, low: nat, b: byte)
    requires high < 16 && low < 16
    ensures high * 16 + low == b <==> high == b / 16 && low == b % 16
  {
  }

  lemma ToHexStep(s: seq<Utf8.codepoint>, bytes: seq<byte>)
    requires |s| >= 2 && bytes != []
    ensures s == ToHex(bytes) <==>
              s[0] == HexChar(bytes[0] / 16) && s[1] == HexChar(bytes[0] % 16) && s[2..] == ToHex(bytes[1..])
  {
    hide HexChar;
    var t := ToHex(bytes);
    assert t[2..] == ToHex(bytes[1..]);
    assert s == [s[0], s[1]] + s[2..];
  }

  lemma {:induction false} HexSize(bytes: seq<byte>)
    ensures |ToHex(bytes)| == 2 * |bytes|
  {
    if bytes != [] {
      HexSize(bytes[1..]);
    }
  }

  // ---------------------------------------------------------------- the JSON of a manifest

  function JsonRange(r: M.Range): Json {
    Arr([Num(r.low), Num(r.high)])
  }

  function JsonPairs(pairs: seq<(nat, nat)>): Json {
    Arr(seq(|pairs|, i requires 0 <= i < |pairs| => Arr([Num(pairs[i].0), Num(pairs[i].1)])))
  }

  function JsonTriple(t: (nat, nat, nat)): Json {
    Arr([Num(t.0), Num(t.1), Num(t.2)])
  }

  function JsonImage(i: M.Image): Json {
    Object(map["target" := Num(i.target), "length" := Num(i.length), "sha256" := Str(ToHex(i.digest)),
               "version" := Str(i.version), "release_sequence" := Num(i.sequence), "signature" := Num(i.signature),
               "abi" := Num(i.abi)])
  }

  function JsonCompatibility(c: M.Compatibility): Json {
    Object(map["esp" := JsonRange(c.esp), "stm" := JsonRange(c.stm), "peer" := JsonRange(c.peer),
               "allowed_pairs" := JsonPairs(c.pairs)])
  }

  function JsonImages(images: seq<M.Image>): Json {
    Arr(seq(|images|, i requires 0 <= i < |images| => JsonImage(images[i])))
  }

  function JsonOf(d: M.Document): Json {
    Object(map["format_version" := Num(2), "package_id" := Str(ToHex(d.packageId)), "role" := Num(d.role),
               "board_revision" := Str(d.board), "layout_id" := Str(d.layout), "release" := Str(d.release),
               "security_epoch" := Num(d.epoch), "key_id" := Num(d.keyId), "images" := JsonImages(d.images),
               "compatibility" := JsonCompatibility(d.compatibility), "config_schema" := JsonTriple(d.config),
               "requires" := JsonTriple(d.requirements)])
  }

  // ---------------------------------------------------------------- slots

  lemma {:induction false} SlotsMeaning(members: map<string, Json>, fields: seq<Field>, slots: seq<Slot>)
    requires forall i :: 0 <= i < |fields| ==> fields[i].name in members
    ensures SlotsOf(members, fields) == Ok(slots) <==>
              |slots| == |fields| && forall i :: 0 <= i < |fields| ==> SlotOf(fields[i], members[fields[i].name]) == Ok(slots[i])
  {
    hide SlotOf;
    if fields != [] && slots != [] {
      SlotsMeaning(members, fields[1..], slots[1..]);
      assert slots == [slots[0]] + slots[1..] && fields == [fields[0]] + fields[1..];
      assert SlotsOf(members, fields) == Ok(slots) <==>
               SlotOf(fields[0], members[fields[0].name]) == Ok(slots[0]) && SlotsOf(members, fields[1..]) == Ok(slots[1..]);
      if |slots| == |fields| && SlotOf(fields[0], members[fields[0].name]) == Ok(slots[0])
         && forall i :: 0 <= i < |fields| - 1 ==> SlotOf(fields[1..][i], members[fields[1..][i].name]) == Ok(slots[1..][i])
      {
        forall i | 0 <= i < |fields| ensures SlotOf(fields[i], members[fields[i].name]) == Ok(slots[i]) {
          assert i > 0 ==> fields[i] == fields[1..][i - 1] && slots[i] == slots[1..][i - 1];
        }
      }
    }
  }

  lemma FieldsMeaning(json: Json, fields: seq<Field>, slots: seq<Slot>)
    ensures json.Object? && json.members.Keys == Names(fields) ==>
              forall i :: 0 <= i < |fields| ==> fields[i].name in json.members
    ensures FieldsSpec(json, fields) == Ok(slots) <==>
              && json.Object? && json.members.Keys == Names(fields)
              && |slots| == |fields|
              && forall i :: 0 <= i < |fields| ==> SlotOf(fields[i], json.members[fields[i].name]) == Ok(slots[i])
  {
    hide SlotOf, SlotsOf, Names;
    if json.Object? && json.members.Keys == Names(fields) {
      NamesPresent(json.members, fields);
      SlotsMeaning(json.members, fields, slots);
    }
  }

  lemma HexSlot(name: string, digits: nat, json: Json, bytes: seq<byte>)
    requires digits > 0 && digits == 2 * |bytes|
    ensures SlotOf(Field(name, digits), json) == Ok(Blob(bytes)) <==> json == Str(ToHex(bytes))
  {
    HexSize(bytes);
    if json.Str? {
      HexMeaning(json.characters, bytes);
    }
    hide FromHex, ToHex;
  }

  lemma HexSlotValue(name: string, digits: nat, json: Json, slot: Slot, bytes: seq<byte>)
    requires digits > 0 && SlotOf(Field(name, digits), json) == Ok(slot) && SlotValue(slot) == Bytes(bytes)
    ensures slot == Blob(bytes)
  {
    hide FromHex;
  }

  // ---------------------------------------------------------------- values

  lemma NumValue(json: Json, n: int)
    ensures ValueOf(json) == Int(n) <==> json == Num(n)
  {
  }

  lemma TextValue(json: Json, t: seq<Utf8.codepoint>)
    ensures ValueOf(json) == Text(t) <==> json == Str(t)
  {
  }

  lemma ListValue(json: Json, vs: seq<Value>)
    ensures ValueOf(json) == List(vs) <==>
              json.Arr? && |json.elements| == |vs| && forall i :: 0 <= i < |vs| ==> ValueOf(json.elements[i]) == vs[i]
  {
  }

  lemma RangeValue(json: Json, r: M.Range)
    ensures ValueOf(json) == M.IntRange(r) <==> json == JsonRange(r)
  {
    ListValue(json, [Int(r.low), Int(r.high)]);
    if json.Arr? && |json.elements| == 2 {
      NumValue(json.elements[0], r.low);
      NumValue(json.elements[1], r.high);
      assert json == JsonRange(r) <==> json.elements[0] == Num(r.low) && json.elements[1] == Num(r.high);
    }
    hide ValueOf;
  }

  lemma PairValue(json: Json, p: (nat, nat))
    ensures ValueOf(json) == M.PairValue(p) <==> json == Arr([Num(p.0), Num(p.1)])
  {
    RangeValue(json, M.Range(p.0, p.1));
    hide ValueOf;
  }

  lemma TripleValue(json: Json, t: (nat, nat, nat))
    ensures ValueOf(json) == M.TripleValue(t) <==> json == JsonTriple(t)
  {
    ListValue(json, [Int(t.0), Int(t.1), Int(t.2)]);
    if json.Arr? && |json.elements| == 3 {
      NumValue(json.elements[0], t.0);
      NumValue(json.elements[1], t.1);
      NumValue(json.elements[2], t.2);
      assert json == JsonTriple(t) <==>
               json.elements[0] == Num(t.0) && json.elements[1] == Num(t.1) && json.elements[2] == Num(t.2);
    }
    hide ValueOf;
  }

  lemma PairsValue(json: Json, pairs: seq<(nat, nat)>)
    ensures ValueOf(json) == ManifestEncoding.PairsValue(pairs) <==> json == JsonPairs(pairs)
  {
    ListValue(json, ManifestEncoding.PairsValue(pairs).elements);
    if json.Arr? && |json.elements| == |pairs| {
      forall i | 0 <= i < |pairs|
        ensures ValueOf(json.elements[i]) == M.PairValue(pairs[i]) <==> json.elements[i] == Arr([Num(pairs[i].0), Num(pairs[i].1)])
      {
        PairValue(json.elements[i], pairs[i]);
      }
    }
    hide ValueOf, M.PairValue;
  }

  // ---------------------------------------------------------------- images and compatibility

  lemma ImageNames()
    ensures Names(IMAGE) == {"target", "length", "sha256", "version", "release_sequence", "signature", "abi"}
    ensures |IMAGE| == 7
    ensures IMAGE[0] == Field("target", 0) && IMAGE[1] == Field("length", 0) && IMAGE[2] == Field("sha256", 64)
    ensures IMAGE[3] == Field("version", 0) && IMAGE[4] == Field("release_sequence", 0)
    ensures IMAGE[5] == Field("signature", 0) && IMAGE[6] == Field("abi", 0)
  {
    assert IMAGE[0].name in Names(IMAGE) && IMAGE[1].name in Names(IMAGE) && IMAGE[2].name in Names(IMAGE)
        && IMAGE[3].name in Names(IMAGE) && IMAGE[4].name in Names(IMAGE) && IMAGE[5].name in Names(IMAGE)
        && IMAGE[6].name in Names(IMAGE);
  }

  lemma SlotsAt(slots: seq<Slot>)
    ensures var v := SlotsValue(slots);
            v.Dict? && (forall k: nat :: k in v.entries <==> k < |slots|)
            && forall k: nat :: k < |slots| ==> v.entries[k] == SlotValue(slots[k])
  {
    hide SlotValue;
  }

  /** An object is shaped into an image exactly when it is the JSON of that image. */
  lemma ImageShaped(json: Json, i: M.Image)
    requires |i.digest| == 32
    ensures FieldsSpec(json, IMAGE).Ok? && SlotsValue(FieldsSpec(json, IMAGE).value) == M.ImageValue(i) <==> json == JsonImage(i)
  {
    if FieldsSpec(json, IMAGE).Ok? && SlotsValue(FieldsSpec(json, IMAGE).value) == M.ImageValue(i) {
      ImageRead(json, i, FieldsSpec(json, IMAGE).value);
    }
    if json == JsonImage(i) {
      ImagePrinted(json, i);
    }
  }

  lemma ImageRead(json: Json, i: M.Image, slots: seq<Slot>)
    requires |i.digest| == 32
    requires FieldsSpec(json, IMAGE) == Ok(slots) && SlotsValue(slots) == M.ImageValue(i)
    ensures json == JsonImage(i)
  {
    ImageNames();
    FieldsMeaning(json, IMAGE, slots);
    SlotsAt(slots);
    ManifestEncoding.ImageEntries(M.ImageValue(i), i);
    hide FieldsSpec, SlotsValue, Names, IMAGE, M.ImageValue, FromHex, ToHex, ValueOf, SlotOf;
    var m := json.members;
    ReadRaw("target", m["target"], slots[0]);
    NumValue(m["target"], i.target);
    ReadRaw("length", m["length"], slots[1]);
    NumValue(m["length"], i.length);
    HexSlotValue("sha256", 64, m["sha256"], slots[2], i.digest);
    HexSlot("sha256", 64, m["sha256"], i.digest);
    ReadRaw("version", m["version"], slots[3]);
    TextValue(m["version"], i.version);
    ReadRaw("release_sequence", m["release_sequence"], slots[4]);
    NumValue(m["release_sequence"], i.sequence);
    ReadRaw("signature", m["signature"], slots[5]);
    NumValue(m["signature"], i.signature);
    ReadRaw("abi", m["abi"], slots[6]);
    NumValue(m["abi"], i.abi);
    assert m == JsonImage(i).members;
  }

  lemma ReadRaw(name: string, json: Json, slot: Slot)
    requires SlotOf(Field(name, 0), json) == Ok(slot)
    ensures slot == Raw(json) && SlotValue(slot) == ValueOf(json)
  {
  }

  lemma ImagePrinted(json: Json, i: M.Image)
    requires |i.digest| == 32 && json == JsonImage(i)
    ensures FieldsSpec(json, IMAGE).Ok? && SlotsValue(FieldsSpec(json, IMAGE).value) == M.ImageValue(i)
  {
    hide *;
    var slots := ImageSlots(json, i);
    ImageNames();
    FieldsMeaning(json, IMAGE, slots);
    SlotsAt(slots);
    SevenKeys(SlotsValue(slots));
    ManifestEncoding.ImageEntries(SlotsValue(slots), i);
  }

  lemma SevenKeys(v: Value)
    ensures v.Dict? && (forall k: nat :: k in v.entries <==> k < 7) ==> M.IsMap(v, 7)
  {
  }

  lemma ImageSlots(json: Json, i: M.Image) returns (slots: seq<Slot>)
    requires |i.digest| == 32 && json == JsonImage(i)
    ensures json.Object? && json.members.Keys == {"target", "length", "sha256", "version", "release_sequence", "signature", "abi"}
    ensures |slots| == 7
    ensures var m := json.members;
            && SlotOf(Field("target", 0), m["target"]) == Ok(slots[0])
            && SlotOf(Field("length", 0), m["length"]) == Ok(slots[1])
            && SlotOf(Field("sha256", 64), m["sha256"]) == Ok(slots[2])
            && SlotOf(Field("version", 0), m["version"]) == Ok(slots[3])
            && SlotOf(Field("release_sequence", 0), m["release_sequence"]) == Ok(slots[4])
            && SlotOf(Field("signature", 0), m["signature"]) == Ok(slots[5])
            && SlotOf(Field("abi", 0), m["abi"]) == Ok(slots[6])
    ensures SlotValue(slots[0]) == Int(i.target) && SlotValue(slots[1]) == Int(i.length)
         && SlotValue(slots[2]) == Bytes(i.digest) && SlotValue(slots[3]) == Text(i.version)
         && SlotValue(slots[4]) == Int(i.sequence) && SlotValue(slots[5]) == Int(i.signature)
         && SlotValue(slots[6]) == Int(i.abi)
  {
    hide *;
    ImageMembers(json, i);
    slots := [Raw(Num(i.target)), Raw(Num(i.length)), Blob(i.digest), Raw(Str(i.version)), Raw(Num(i.sequence)),
              Raw(Num(i.signature)), Raw(Num(i.abi))];
    PrintRaw("target", Num(i.target));
    NumValue(Num(i.target), i.target);
    PrintRaw("length", Num(i.length));
    NumValue(Num(i.length), i.length);
    HexSlot("sha256", 64, Str(ToHex(i.digest)), i.digest);
    BlobValue(i.digest);
    PrintRaw("version", Str(i.version));
    TextValue(Str(i.version), i.version);
    PrintRaw("release_sequence", Num(i.sequence));
    NumValue(Num(i.sequence), i.sequence);
    PrintRaw("signature", Num(i.signature));
    NumValue(Num(i.signature), i.signature);
    PrintRaw("abi", Num(i.abi));
    NumValue(Num(i.abi), i.abi);
  }

  lemma ImageMembers(json: Json, i: M.Image)
    requires json == JsonImage(i)
    ensures json.Object? && json.members.Keys == {"target", "length", "sha256", "version", "release_sequence", "signature", "abi"}
    ensures var m := json.members;
            && m["target"] == Num(i.target) && m["length"] == Num(i.length) && m["sha256"] == Str(ToHex(i.digest))
            && m["version"] == Str(i.version) && m["release_sequence"] == Num(i.sequence)
            && m["signature"] == Num(i.signature) && m["abi"] == Num(i.abi)
  {
    hide ToHex;
  }

  ghost predicate DigestsSized(images: seq<M.Image>) {
    forall i :: 0 <= i < |images| ==> |images[i].digest| == 32
  }

  lemma {:induction false} ImagesShaped(jsons: seq<Json>, images: seq<M.Image>)
    requires DigestsSized(images)
    ensures ImageValues(jsons) == Ok(M.ImagesValue(images).elements) <==> Arr(jsons) == JsonImages(images)
  {
    hide FieldsSpec, SlotsValue, M.ImageValue, JsonImage, IMAGE;
    if jsons == [] || images == [] {
      assert images == [] ==> M.ImagesValue(images).elements == [] && JsonImages(images).elements == [];
      assert images != [] ==> M.ImagesValue(images).elements != [] && JsonImages(images).elements != [];
    } else {
      ImageShaped(jsons[0], images[0]);
      ImagesShaped(jsons[1..], images[1..]);
      ImagesStep(jsons, images);
    }
  }

  lemma ImagesStep(jsons: seq<Json>, images: seq<M.Image>)
    requires jsons != [] && images != []
    ensures ImageValues(jsons) == Ok(M.ImagesValue(images).elements) <==>
              && FieldsSpec(jsons[0], IMAGE).Ok?
              && SlotsValue(FieldsSpec(jsons[0], IMAGE).value) == M.ImageValue(images[0])
              && ImageValues(jsons[1..]) == Ok(M.ImagesValue(images[1..]).elements)
    ensures Arr(jsons) == JsonImages(images) <==>
              jsons[0] == JsonImage(images[0]) && Arr(jsons[1..]) == JsonImages(images[1..])
  {
    hide FieldsSpec, SlotsValue, M.ImageValue, JsonImage, IMAGE;
    var vs, rest := M.ImagesValue(images).elements, M.ImagesValue(images[1..]).elements;
    assert vs == [M.ImageValue(images[0])] + rest && vs[1..] == rest;
    var js, more := JsonImages(images).elements, JsonImages(images[1..]).elements;
    assert js == [JsonImage(images[0])] + more && js[1..] == more;
    assert jsons == [jsons[0]] + jsons[1..];
  }

  lemma CompatibilityNames()
    ensures Names(COMPATIBILITY) == {"esp", "stm", "peer", "allowed_pairs"}
    ensures |COMPATIBILITY| == 4
    ensures COMPATIBILITY[0] == Field("esp", 0) && COMPATIBILITY[1] == Field("stm", 0)
    ensures COMPATIBILITY[2] == Field("peer", 0) && COMPATIBILITY[3] == Field("allowed_pairs", 0)
  {
    assert COMPATIBILITY[0].name in Names(COMPATIBILITY) && COMPATIBILITY[1].name in Names(COMPATIBILITY)
        && COMPATIBILITY[2].name in Names(COMPATIBILITY) && COMPATIBILITY[3].name in Names(COMPATIBILITY);
  }

  lemma CompatibilityShaped(json: Json, c: M.Compatibility)
    ensures FieldsSpec(json, COMPATIBILITY).Ok? && SlotsValue(FieldsSpec(json, COMPATIBILITY).value) == M.CompatibilityValue(c)
            <==> json == JsonCompatibility(c)
  {
    if FieldsSpec(json, COMPATIBILITY).Ok? && SlotsValue(FieldsSpec(json, COMPATIBILITY).value) == M.CompatibilityValue(c) {
      CompatibilityRead(json, c, FieldsSpec(json, COMPATIBILITY).value);
    }
    if json == JsonCompatibility(c) {
      CompatibilityPrinted(json, c);
    }
  }

  lemma CompatibilityRead(json: Json, c: M.Compatibility, slots: seq<Slot>)
    requires FieldsSpec(json, COMPATIBILITY) == Ok(slots) && SlotsValue(slots) == M.CompatibilityValue(c)
    ensures json == JsonCompatibility(c)
  {
    CompatibilityNames();
    FieldsMeaning(json, COMPATIBILITY, slots);
    SlotsAt(slots);
    ManifestEncoding.CompatibilityEntries(M.CompatibilityValue(c), c);
    hide FieldsSpec, SlotsValue, Names, COMPATIBILITY, M.CompatibilityValue, ValueOf, SlotOf, M.IntRange,
      ManifestEncoding.PairsValue, JsonRange, JsonPairs;
    var m := json.members;
    ReadRaw("esp", m["esp"], slots[0]);
    RangeValue(m["esp"], c.esp);
    ReadRaw("stm", m["stm"], slots[1]);
    RangeValue(m["stm"], c.stm);
    ReadRaw("peer", m["peer"], slots[2]);
    RangeValue(m["peer"], c.peer);
    ReadRaw("allowed_pairs", m["allowed_pairs"], slots[3]);
    PairsValue(m["allowed_pairs"], c.pairs);
    assert m == JsonCompatibility(c).members;
  }

  lemma CompatibilityPrinted(json: Json, c: M.Compatibility)
    requires json == JsonCompatibility(c)
    ensures FieldsSpec(json, COMPATIBILITY).Ok? && SlotsValue(FieldsSpec(json, COMPATIBILITY).value) == M.CompatibilityValue(c)
  {
    hide *;
    var slots := CompatibilitySlots(json, c);
    CompatibilityNames();
    FieldsMeaning(json, COMPATIBILITY, slots);
    SlotsAt(slots);
    FourKeys(SlotsValue(slots));
    ManifestEncoding.CompatibilityEntries(SlotsValue(slots), c);
  }

  lemma FourKeys(v: Value)
    ensures v.Dict? && (forall k: nat :: k in v.entries <==> k < 4) ==> M.IsMap(v, 4)
  {
  }

  lemma CompatibilitySlots(json: Json, c: M.Compatibility) returns (slots: seq<Slot>)
    requires json == JsonCompatibility(c)
    ensures json.Object? && json.members.Keys == {"esp", "stm", "peer", "allowed_pairs"}
    ensures |slots| == 4
    ensures var m := json.members;
            && SlotOf(Field("esp", 0), m["esp"]) == Ok(slots[0])
            && SlotOf(Field("stm", 0), m["stm"]) == Ok(slots[1])
            && SlotOf(Field("peer", 0), m["peer"]) == Ok(slots[2])
            && SlotOf(Field("allowed_pairs", 0), m["allowed_pairs"]) == Ok(slots[3])
    ensures SlotValue(slots[0]) == M.IntRange(c.esp) && SlotValue(slots[1]) == M.IntRange(c.stm)
         && SlotValue(slots[2]) == M.IntRange(c.peer) && SlotValue(slots[3]) == ManifestEncoding.PairsValue(c.pairs)
  {
    slots := [Raw(JsonRange(c.esp)), Raw(JsonRange(c.stm)), Raw(JsonRange(c.peer)), Raw(JsonPairs(c.pairs))];
    RangeValue(JsonRange(c.esp), c.esp);
    RangeValue(JsonRange(c.stm), c.stm);
    RangeValue(JsonRange(c.peer), c.peer);
    PairsValue(JsonPairs(c.pairs), c.pairs);
    hide ValueOf, JsonRange, JsonPairs, M.IntRange, ManifestEncoding.PairsValue;
  }

  // ---------------------------------------------------------------- the whole manifest

  lemma RootFields()
    ensures |ROOT| == 12
    ensures ROOT[0] == Field("format_version", 0) && ROOT[1] == Field("package_id", 32) && ROOT[2] == Field("role", 0)
    ensures ROOT[3] == Field("board_revision", 0) && ROOT[4] == Field("layout_id", 0) && ROOT[5] == Field("release", 0)
    ensures ROOT[6] == Field("security_epoch", 0) && ROOT[7] == Field("key_id", 0) && ROOT[8] == Field("images", 0)
    ensures ROOT[9] == Field("compatibility", 0) && ROOT[10] == Field("config_schema", 0) && ROOT[11] == Field("requires", 0)
  {
  }

  lemma NamedAt(fields: seq<Field>, i: nat)
    requires i < |fields|
    ensures fields[i].name in Names(fields)
  {
  }

  lemma NameListed(fields: seq<Field>, name: string) returns (i: nat)
    requires name in Names(fields)
    ensures i < |fields| && fields[i].name == name
  {
    var k :| 0 <= k < |fields| && fields[k].name == name;
    i := k;
  }

  lemma RootNames()
    ensures Names(ROOT) == {"format_version", "package_id", "role", "board_revision", "layout_id", "release", "security_epoch",
                            "key_id", "images", "compatibility", "config_schema", "requires"}
  {
    hide Names, ROOT;
    RootFields();
    NamedAt(ROOT, 0);
    NamedAt(ROOT, 1);
    NamedAt(ROOT, 2);
    NamedAt(ROOT, 3);
    NamedAt(ROOT, 4);
    NamedAt(ROOT, 5);
    NamedAt(ROOT, 6);
    NamedAt(ROOT, 7);
    NamedAt(ROOT, 8);
    NamedAt(ROOT, 9);
    NamedAt(ROOT, 10);
    NamedAt(ROOT, 11);
    forall name | name in Names(ROOT)
      ensures name in {"format_version", "package_id", "role", "board_revision", "layout_id", "release", "security_epoch",
                       "key_id", "images", "compatibility", "config_schema", "requires"}
    {
      var i := NameListed(ROOT, name);
    }
  }

  /** What an object of the twelve properties is shaped into. */
  ghost predicate Shaped(source: Json, slots: seq<Slot>, v: Value) {
    && FieldsSpec(source, ROOT) == Ok(slots) && |slots| == 12
    && slots[8].Raw? && slots[8].json.Arr? && 1 <= |slots[8].json.elements| <= 2
    && ImageValues(slots[8].json.elements).Ok?
    && slots[9].Raw? && FieldsSpec(slots[9].json, COMPATIBILITY).Ok?
    && v.Dict? && (forall k: nat :: k in v.entries <==> k < 12)
    && v.entries[0] == SlotValue(slots[0]) && v.entries[1] == SlotValue(slots[1]) && v.entries[2] == SlotValue(slots[2])
    && v.entries[3] == SlotValue(slots[3]) && v.entries[4] == SlotValue(slots[4]) && v.entries[5] == SlotValue(slots[5])
    && v.entries[6] == SlotValue(slots[6]) && v.entries[7] == SlotValue(slots[7])
    && v.entries[8] == List(ImageValues(slots[8].json.elements).value)
    && v.entries[9] == SlotsValue(FieldsSpec(slots[9].json, COMPATIBILITY).value)
    && v.entries[10] == SlotValue(slots[10]) && v.entries[11] == SlotValue(slots[11])
  }

  lemma ShapeUnfold(source: Json, v: Value) returns (slots: seq<Slot>)
    requires Shape(source) == Ok(v)
    ensures Shaped(source, slots, v)
  {
    hide FieldsSpec, ImageValues, ROOT, COMPATIBILITY;
    slots := FieldsSpec(source, ROOT).value;
    RootFields();
    SlotsAt(slots);
    hide SlotsValue, SlotValue;
  }

  lemma ShapeFold(source: Json, slots: seq<Slot>, v: Value)
    requires Shaped(source, slots, v)
    ensures Shape(source) == Ok(v)
  {
    hide FieldsSpec, ImageValues, ROOT, COMPATIBILITY;
    RootFields();
    SlotsAt(slots);
    var compatibility := FieldsSpec(slots[9].json, COMPATIBILITY).value;
    hide SlotsValue, SlotValue;
    var m := SlotsValue(slots).entries;
    TwelveEntries(v.entries, m[8 := List(ImageValues(slots[8].json.elements).value)][9 := SlotsValue(compatibility)]);
  }

  lemma TwelveEntries(m: map<nat, Value>, n: map<nat, Value>)
    requires (forall k: nat :: k in m <==> k < 12) && (forall k: nat :: k in n <==> k < 12)
    requires m[0] == n[0] && m[1] == n[1] && m[2] == n[2] && m[3] == n[3] && m[4] == n[4] && m[5] == n[5]
          && m[6] == n[6] && m[7] == n[7] && m[8] == n[8] && m[9] == n[9] && m[10] == n[10] && m[11] == n[11]
    ensures m == n
  {
  }

  /** A JSON value is shaped into the dict of a manifest exactly when it is the JSON of that manifest. */
  lemma ShapeMeaning(source: Json, d: M.Document)
    requires |d.packageId| == 16 && DigestsSized(d.images) && 1 <= |d.images| <= 2
    ensures Shape(source) == Ok(M.DocumentValue(d)) <==> source == JsonOf(d)
  {
    if Shape(source) == Ok(M.DocumentValue(d)) {
      var slots := ShapeUnfold(source, M.DocumentValue(d));
      DocumentRead(source, d, slots);
    }
    if source == JsonOf(d) {
      DocumentPrinted(source, d);
    }
  }

  lemma DocumentRead(source: Json, d: M.Document, slots: seq<Slot>)
    requires |d.packageId| == 16 && DigestsSized(d.images)
    requires Shaped(source, slots, M.DocumentValue(d))
    ensures source == JsonOf(d)
  {
    hide FieldsSpec, SlotsValue, Names, ROOT, COMPATIBILITY, ImageValues, M.DocumentValue, ValueOf, SlotOf, SlotValue, FromHex,
      ToHex, M.ImagesValue, M.CompatibilityValue, M.TripleValue, JsonImages, JsonCompatibility, JsonTriple, DigestsSized;
    M.DocumentValueEntries(d);
    RootFields();
    RootNames();
    FieldsMeaning(source, ROOT, slots);
    var m := source.members;
    ReadRaw("format_version", m["format_version"], slots[0]);
    NumValue(m["format_version"], 2);
    HexSlotValue("package_id", 32, m["package_id"], slots[1], d.packageId);
    HexSlot("package_id", 32, m["package_id"], d.packageId);
    ReadRaw("role", m["role"], slots[2]);
    NumValue(m["role"], d.role);
    ReadRaw("board_revision", m["board_revision"], slots[3]);
    TextValue(m["board_revision"], d.board);
    ReadRaw("layout_id", m["layout_id"], slots[4]);
    TextValue(m["layout_id"], d.layout);
    ReadRaw("release", m["release"], slots[5]);
    TextValue(m["release"], d.release);
    ReadRaw("security_epoch", m["security_epoch"], slots[6]);
    NumValue(m["security_epoch"], d.epoch);
    ReadRaw("key_id", m["key_id"], slots[7]);
    NumValue(m["key_id"], d.keyId);
    ReadRaw("images", m["images"], slots[8]);
    ImagesShaped(slots[8].json.elements, d.images);
    ImagesList(d.images);
    ReadRaw("compatibility", m["compatibility"], slots[9]);
    CompatibilityShaped(m["compatibility"], d.compatibility);
    ReadRaw("config_schema", m["config_schema"], slots[10]);
    TripleValue(m["config_schema"], d.config);
    ReadRaw("requires", m["requires"], slots[11]);
    TripleValue(m["requires"], d.requirements);
    SameMembers(source, d);
  }

  lemma ImagesList(images: seq<M.Image>)
    ensures M.ImagesValue(images) == List(M.ImagesValue(images).elements)
  {
    hide M.ImageValue;
  }

  lemma SameMembers(source: Json, d: M.Document)
    requires source.Object?
    requires source.members.Keys == {"format_version", "package_id", "role", "board_revision", "layout_id", "release",
                                     "security_epoch", "key_id", "images", "compatibility", "config_schema", "requires"}
    requires var m := source.members;
             && m["format_version"] == Num(2) && m["package_id"] == Str(ToHex(d.packageId)) && m["role"] == Num(d.role)
             && m["board_revision"] == Str(d.board) && m["layout_id"] == Str(d.layout) && m["release"] == Str(d.release)
             && m["security_epoch"] == Num(d.epoch) && m["key_id"] == Num(d.keyId) && m["images"] == JsonImages(d.images)
             && m["compatibility"] == JsonCompatibility(d.compatibility) && m["config_schema"] == JsonTriple(d.config)
             && m["requires"] == JsonTriple(d.requirements)
    ensures source == JsonOf(d)
  {
    hide ToHex, JsonImages, JsonCompatibility, JsonTriple;
    assert source.members == JsonOf(d).members;
  }

  lemma DocumentPrinted(source: Json, d: M.Document)
    requires |d.packageId| == 16 && DigestsSized(d.images) && 1 <= |d.images| <= 2 && source == JsonOf(d)
    ensures Shape(source) == Ok(M.DocumentValue(d))
  {
    hide *;
    var slots := DocumentSlots(source, d);
    RootFields();
    RootNames();
    FieldsMeaning(source, ROOT, slots);
    ImagesShaped(slots[8].json.elements, d.images);
    ImagesList(d.images);
    CompatibilityShaped(slots[9].json, d.compatibility);
    M.DocumentValueEntries(d);
    VersionIs();
    ShapedFold(source, slots, M.DocumentValue(d));
    ShapeFold(source, slots, M.DocumentValue(d));
  }

  lemma VersionIs()
    ensures E.FORMAT_VERSION == 2
  {
  }

  lemma ShapedFold(source: Json, slots: seq<Slot>, v: Value)
    requires FieldsSpec(source, ROOT) == Ok(slots) && |slots| == 12
    requires slots[8].Raw? && slots[8].json.Arr? && 1 <= |slots[8].json.elements| <= 2
    requires ImageValues(slots[8].json.elements).Ok?
    requires slots[9].Raw? && FieldsSpec(slots[9].json, COMPATIBILITY).Ok?
    requires v.Dict? && (forall k: nat :: k < 12 ==> k in v.entries) && (forall k: nat :: k in v.entries ==> k < 12)
    requires v.entries[0] == SlotValue(slots[0]) && v.entries[1] == SlotValue(slots[1]) && v.entries[2] == SlotValue(slots[2])
    requires v.entries[3] == SlotValue(slots[3]) && v.entries[4] == SlotValue(slots[4]) && v.entries[5] == SlotValue(slots[5])
    requires v.entries[6] == SlotValue(slots[6]) && v.entries[7] == SlotValue(slots[7])
    requires v.entries[8] == List(ImageValues(slots[8].json.elements).value)
    requires v.entries[9] == SlotsValue(FieldsSpec(slots[9].json, COMPATIBILITY).value)
    requires v.entries[10] == SlotValue(slots[10]) && v.entries[11] == SlotValue(slots[11])
    ensures Shaped(source, slots, v)
  {
    hide FieldsSpec, ROOT, COMPATIBILITY, ImageValues, SlotValue, SlotsValue;
  }

  lemma DocumentSlots(source: Json, d: M.Document) returns (slots: seq<Slot>)
    requires |d.packageId| == 16 && 1 <= |d.images| <= 2 && source == JsonOf(d)
    ensures source.Object?
    ensures source.members.Keys == {"format_version", "package_id", "role", "board_revision", "layout_id", "release",
                                    "security_epoch", "key_id", "images", "compatibility", "config_schema", "requires"}
    ensures |slots| == 12
    ensures var m := source.members;
            && SlotOf(Field("format_version", 0), m["format_version"]) == Ok(slots[0])
            && SlotOf(Field("package_id", 32), m["package_id"]) == Ok(slots[1])
            && SlotOf(Field("role", 0), m["role"]) == Ok(slots[2])
            && SlotOf(Field("board_revision", 0), m["board_revision"]) == Ok(slots[3])
            && SlotOf(Field("layout_id", 0), m["layout_id"]) == Ok(slots[4])
            && SlotOf(Field("release", 0), m["release"]) == Ok(slots[5])
            && SlotOf(Field("security_epoch", 0), m["security_epoch"]) == Ok(slots[6])
            && SlotOf(Field("key_id", 0), m["key_id"]) == Ok(slots[7])
            && SlotOf(Field("images", 0), m["images"]) == Ok(slots[8])
            && SlotOf(Field("compatibility", 0), m["compatibility"]) == Ok(slots[9])
            && SlotOf(Field("config_schema", 0), m["config_schema"]) == Ok(slots[10])
            && SlotOf(Field("requires", 0), m["requires"]) == Ok(slots[11])
    ensures SlotValue(slots[0]) == Int(2) && SlotValue(slots[1]) == Bytes(d.packageId) && SlotValue(slots[2]) == Int(d.role)
    ensures SlotValue(slots[3]) == Text(d.board) && SlotValue(slots[4]) == Text(d.layout) && SlotValue(slots[5]) == Text(d.release)
    ensures SlotValue(slots[6]) == Int(d.epoch) && SlotValue(slots[7]) == Int(d.keyId)
    ensures slots[8] == Raw(JsonImages(d.images)) && JsonImages(d.images).Arr? && 1 <= |JsonImages(d.images).elements| <= 2
    ensures slots[9] == Raw(JsonCompatibility(d.compatibility))
    ensures SlotValue(slots[10]) == M.TripleValue(d.config) && SlotValue(slots[11]) == M.TripleValue(d.requirements)
  {
    hide *;
    DocumentMembers(source, d);
    slots := [Raw(Num(2)), Blob(d.packageId), Raw(Num(d.role)), Raw(Str(d.board)), Raw(Str(d.layout)), Raw(Str(d.release)),
              Raw(Num(d.epoch)), Raw(Num(d.keyId)), Raw(JsonImages(d.images)), Raw(JsonCompatibility(d.compatibility)),
              Raw(JsonTriple(d.config)), Raw(JsonTriple(d.requirements))];
    PrintRaw("format_version", Num(2));
    NumValue(Num(2), 2);
    HexSlot("package_id", 32, Str(ToHex(d.packageId)), d.packageId);
    BlobValue(d.packageId);
    PrintRaw("role", Num(d.role));
    NumValue(Num(d.role), d.role);
    PrintRaw("board_revision", Str(d.board));
    TextValue(Str(d.board), d.board);
    PrintRaw("layout_id", Str(d.layout));
    TextValue(Str(d.layout), d.layout);
    PrintRaw("release", Str(d.release));
    TextValue(Str(d.release), d.release);
    PrintRaw("security_epoch", Num(d.epoch));
    NumValue(Num(d.epoch), d.epoch);
    PrintRaw("key_id", Num(d.keyId));
    NumValue(Num(d.keyId), d.keyId);
    PrintRaw("images", JsonImages(d.images));
    ImagesCount(d.images);
    PrintRaw("compatibility", JsonCompatibility(d.compatibility));
    PrintRaw("config_schema", JsonTriple(d.config));
    TripleValue(JsonTriple(d.config), d.config);
    PrintRaw("requires", JsonTriple(d.requirements));
    TripleValue(JsonTriple(d.requirements), d.requirements);
  }

  lemma PrintRaw(name: string, json: Json)
    ensures SlotOf(Field(name, 0), json) == Ok(Raw(json)) && SlotValue(Raw(json)) == ValueOf(json)
  {
  }

  lemma BlobValue(bytes: seq<byte>)
    ensures SlotValue(Blob(bytes)) == Bytes(bytes)
  {
  }

  lemma ImagesCount(images: seq<M.Image>)
    ensures JsonImages(images).Arr? && |JsonImages(images).elements| == |images|
  {
    hide JsonImage;
  }

  lemma DocumentMembers(source: Json, d: M.Document)
    requires source == JsonOf(d)
    ensures source.Object?
    ensures source.members.Keys == {"format_version", "package_id", "role", "board_revision", "layout_id", "release",
                                    "security_epoch", "key_id", "images", "compatibility", "config_schema", "requires"}
    ensures var m := source.members;
            && m["format_version"] == Num(2) && m["package_id"] == Str(ToHex(d.packageId)) && m["role"] == Num(d.role)
            && m["board_revision"] == Str(d.board) && m["layout_id"] == Str(d.layout) && m["release"] == Str(d.release)
            && m["security_epoch"] == Num(d.epoch) && m["key_id"] == Num(d.keyId) && m["images"] == JsonImages(d.images)
            && m["compatibility"] == JsonCompatibility(d.compatibility) && m["config_schema"] == JsonTriple(d.config)
            && m["requires"] == JsonTriple(d.requirements)
  {
    hide ToHex, JsonImages, JsonCompatibility, JsonTriple;
  }

  /** The loader accepts exactly the JSON of the manifests that keep the rules for the identity they claim, and
      returns the dict that spells the manifest. */
  lemma LoadBijection(source: Json, v: Value)
    ensures LoadSpec(source) == Ok(v) <==>
              exists d :: source == JsonOf(d) && v == M.DocumentValue(d) && ManifestRules.Rules(d, M.IdentityOf(d))
  {
    hide *;
    LoadMeaning(source, v);
    if LoadSpec(source) == Ok(v) {
      var d := M.TypeDocument(v).value;
      ManifestEncoding.TypedBijection(v, d);
      OwnIs(v, d);
      ManifestRules.RulesMeaning(d, M.IdentityOf(d));
      RuledShape(d);
      ShapeMeaning(source, d);
    }
    if d :| source == JsonOf(d) && v == M.DocumentValue(d) && ManifestRules.Rules(d, M.IdentityOf(d)) {
      ManifestRules.RulesMeaning(d, M.IdentityOf(d));
      ManifestEncoding.TypedBijection(v, d);
      OwnIs(v, d);
      RuledShape(d);
      ShapeMeaning(source, d);
    }
  }

  lemma OwnIs(v: Value, d: M.Document)
    requires M.TypeDocument(v) == Ok(d)
    ensures OwnIdentity(v) == M.IdentityOf(d)
  {
    hide M.TypeDocument;
  }

  lemma RuledShape(d: M.Document)
    requires ManifestRules.Rules(d, M.IdentityOf(d))
    ensures |d.packageId| == 16 && DigestsSized(d.images) && 1 <= |d.images| <= 2
  {
    hide ManifestRules.ShortText;
  }
}
