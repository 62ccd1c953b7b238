/** The typed walk and the cross checks of tools/ota/manifest.py. */
module Manifest {
  import opened Prelude
  import Utf8
  import opened Cbor
  import opened Envelope

  const TEXT_MAX: nat := 63
  const COMBINATIONS_MAX: nat := 16
  const U32: nat := 0x1_0000_0000

  // ---------------------------------------------------------------- the typed view

  datatype Image = Image(target: nat, length: nat, digest: seq<byte>, version: seq<Utf8.codepoint>,
                         sequence: nat, signature: nat, abi: nat)

  datatype Range = Range(low: nat, high: nat) {
    predicate Contains(n: nat) {
      low <= n <= high
    }
  }

  datatype Compatibility = Compatibility(esp: Range, stm: Range, peer: Range, pairs: seq<(nat, nat)>)

  datatype Document = Document(
    packageId: seq<byte>, role: nat, board: seq<Utf8.codepoint>, layout: seq<Utf8.codepoint>,
    release: seq<Utf8.codepoint>, epoch: nat, keyId: nat, images: seq<Image>, compatibility: Compatibility,
    config: (nat, nat, nat), requirements: (nat, nat, nat))

  /** What the device trusts: role, board, layout, epoch and key. */
  datatype Identity = Identity(role: nat, board: seq<Utf8.codepoint>, layout: seq<Utf8.codepoint>, epoch: nat, keyId: nat)

  function IdentityOf(d: Document): Identity {
    Identity(d.role, d.board, d.layout, d.epoch, d.keyId)
  }

  // ---------------------------------------------------------------- guards

  function Uint(v: Value, limit: nat): Result<nat, Status> {
    if !v.Int? || v.n < 0 then Err(Malformed) else if v.n >= limit then Err(Oversize) else Ok(v.n)
  }

  function TextOf(v: Value): Result<seq<Utf8.codepoint>, Status> {
    if !v.Text? || !(1 <= |v.characters| <= TEXT_MAX) then Err(Malformed)
    else if exists i :: 0 <= i < |v.characters| && !(0x20 <= v.characters[i] <= 0x7E) then Err(Malformed)
    else Ok(v.characters)
  }

  function BytesOf(v: Value, size: nat): Result<seq<byte>, Status> {
    if !v.Bytes? || |v.raw| != size then Err(Malformed) else Ok(v.raw)
  }

  /** A dict whose keys, in order, are 0 .. count - 1; decoded dicts list their keys in order. */
  predicate IsMap(v: Value, count: nat) {
    && v.Dict?
    && (forall i: nat :: i < count ==> i in v.entries)
    && (forall i: nat :: i in v.entries ==> i < count)
  }

  function ListOf(v: Value, count: nat): Result<seq<Value>, Status> {
    if !v.List? || |v.elements| != count then Err(Malformed) else Ok(v.elements)
  }

  predicate KnownTarget(target: nat) {
    1 <= target <= 4
  }

  function ImageLimit(target: nat): nat
    requires KnownTarget(target)
  {
    if target == 2 then 184320 else if target == 4 then 2621440 else 4194304
  }

  predicate KnownRole(role: nat) {
    1 <= role <= 3
  }

  predicate RoleAllows(role: nat, target: nat)
    requires KnownRole(role)
  {
    if role == 1 then target == 1 || target == 2 else target == role + 1
  }

  // ---------------------------------------------------------------- the typed walk

  function TypeImage(v: Value): Result<Image, Status> {
    if !IsMap(v, 7) then Err(Malformed)
    else
      var m := v.entries;
      var target :- Uint(m[0], U32);
      var length :- Uint(m[1], U32);
      var digest :- BytesOf(m[2], 32);
      var version :- TextOf(m[3]);
      var sequence :- Uint(m[4], U64);
      var signature :- Uint(m[5], U32);
      var abi :- Uint(m[6], U32);
      if !KnownTarget(target) || !(signature == 1 || signature == 2) then Err(Malformed)
      else Ok(Image(target, length, digest, version, sequence, signature, abi))
  }

  function TypeImages(vs: seq<Value>): (r: Result<seq<Image>, Status>)
    ensures r.Ok? ==> |r.value| == |vs|
  {
    if vs == [] then Ok([])
    else
      var first :- TypeImage(vs[0]);
      var rest :- TypeImages(vs[1..]);
      Ok([first] + rest)
  }

  function TypeRange(v: Value): Result<Range, Status> {
    var both :- ListOf(v, 2);
    var low :- Uint(both[0], U32);
    var high :- Uint(both[1], U32);
    if low > high then Err(Malformed) else Ok(Range(low, high))
  }

  function TypePairs(vs: seq<Value>): (r: Result<seq<(nat, nat)>, Status>)
    ensures r.Ok? ==> |r.value| == |vs|
  {
    if vs == [] then Ok([])
    else
      var pair :- ListOf(vs[0], 2);
      var esp :- Uint(pair[0], U32);
      var stm :- Uint(pair[1], U32);
      var rest :- TypePairs(vs[1..]);
      Ok([(esp, stm)] + rest)
  }

  function TypeCompatibility(v: Value): Result<Compatibility, Status> {
    if !IsMap(v, 4) then Err(Malformed)
    else
      var m := v.entries;
      var esp :- TypeRange(m[0]);
      var stm :- TypeRange(m[1]);
      var peer :- TypeRange(m[2]);
      if !m[3].List? then Err(Malformed)
      else if |m[3].elements| > COMBINATIONS_MAX then Err(Oversize)
      else
        var pairs :- TypePairs(m[3].elements);
        Ok(Compatibility(esp, stm, peer, pairs))
  }

  function TypeTriple(v: Value, lastLimit: nat): Result<(nat, nat, nat), Status> {
    var three :- ListOf(v, 3);
    var a :- Uint(three[0], U32);
    var b :- Uint(three[1], U32);
    var c :- Uint(three[2], lastLimit);
    Ok((a, b, c))
  }

  datatype Scalars = Scalars(packageId: seq<byte>, role: nat, board: seq<Utf8.codepoint>,
                             layout: seq<Utf8.codepoint>, release: seq<Utf8.codepoint>, epoch: nat, keyId: nat)

  function TypeScalars(m: map<nat, Value>): Result<Scalars, Status>
    requires forall i: nat :: i < 12 ==> i in m
  {
    var version :- Uint(m[0], U32);
    if version != FORMAT_VERSION then Err(UnsupportedVersion)
    else
      var packageId :- BytesOf(m[1], 16);
      var role :- Uint(m[2], U32);
      var board :- TextOf(m[3]);
      var layout :- TextOf(m[4]);
      var release :- TextOf(m[5]);
      var epoch :- Uint(m[6], U32);
      var keyId :- Uint(m[7], U32);
      Ok(Scalars(packageId, role, board, layout, release, epoch, keyId))
  }

  function TypeDocument(v: Value): Result<Document, Status> {
    if !IsMap(v, 12) then Err(Malformed)
    else
      var m := v.entries;
      assert forall i: nat :: i < 12 ==> i in m;
      var s :- TypeScalars(m);
      if !KnownRole(s.role) || !m[8].List? || !(1 <= |m[8].elements| <= 3) then Err(Malformed)
      else
        var images :- TypeImages(m[8].elements);
        var compatibility :- TypeCompatibility(m[9]);
        var config :- TypeTriple(m[10], U32);
        var requirements :- TypeTriple(m[11], U64);
        Ok(Document(s.packageId, s.role, s.board, s.layout, s.release, s.epoch, s.keyId, images, compatibility,
                    config, requirements))
  }

  // ---------------------------------------------------------------- the cross checks

  function ImageLengths(images: seq<Image>): (lengths: seq<nat>)
    ensures |lengths| == |images|
    ensures forall i :: 0 <= i < |images| ==> lengths[i] == images[i].length
  {
    seq(|images|, i requires 0 <= i < |images| => images[i].length)
  }

  function AbiRange(c: Compatibility, target: nat): Range {
    if target == 2 then c.stm else c.esp
  }

  /** Everything about one image that can be judged without the others. */
  predicate ImageAllowed(d: Document, image: Image)
    requires KnownRole(d.role)
  {
    && RoleAllows(d.role, image.target)
    && image.length != 0
    && AbiRange(d.compatibility, image.target).Contains(image.abi)
    && image.signature == (if image.target == 2 then 2 else 1)
  }

  predicate TargetsKnown(images: seq<Image>) {
    forall i :: 0 <= i < |images| ==> KnownTarget(images[i].target)
  }

  datatype Placement = Placement(offsets: seq<nat>, total: nat)

  /** The loop that recomputes the image offsets. */
  function CheckImages(d: Document, images: seq<Image>, offset: nat, seen: set<nat>): Result<Placement, Status>
    requires KnownRole(d.role) && TargetsKnown(images)
    decreases |images|
  {
    if images == [] then Ok(Placement([], offset))
    else
      var aligned := ImageOffset(offset);
      var image := images[0];
      if !ImageAllowed(d, image) then Err(Malformed)
      else if image.target in seen then Err(Duplicate)
      else if image.length > ImageLimit(image.target) || aligned + image.length > 0xFFFFFFFF then Err(Oversize)
      else
        var rest :- CheckImages(d, images[1..], aligned + image.length, seen + {image.target});
        Ok(Placement([aligned] + rest.offsets, rest.total))
  }

  function CheckPairs(c: Compatibility, pairs: seq<(nat, nat)>, seen: set<(nat, nat)>): Option<Status> {
    if pairs == [] then None
    else if !c.esp.Contains(pairs[0].0) || !c.stm.Contains(pairs[0].1) then Some(Malformed)
    else if pairs[0] in seen then Some(Duplicate)
    else CheckPairs(c, pairs[1..], seen + {pairs[0]})
  }

  function CheckDocument(d: Document, identity: Identity, size: nat, count: nat, total: nat): Result<Placement, Status>
    requires KnownRole(d.role) && TargetsKnown(d.images)
  {
    if IdentityOf(d) != identity then Err(AuthFailed)
    else if |d.images| != count || |d.images| > (if d.role == 1 then 2 else 1)
            || !(d.config.0 <= d.config.2 <= d.config.1) then Err(Malformed)
    else if (d.role == 1 && d.compatibility.pairs == []) || (d.role != 1 && d.compatibility.pairs != []) then
      Err(Malformed)
    else
      var placement :- CheckImages(d, d.images, size, {});
      var failed := CheckPairs(d.compatibility, d.compatibility.pairs, {});
      if failed.Some? then Err(failed.value)
      else if placement.total != total then Err(Malformed)
      else Ok(placement)
  }

  datatype Checked = Checked(manifest: Value, document: Document, offsets: seq<nat>, total: nat)

  lemma TypedDocument(v: Value)
    requires TypeDocument(v).Ok?
    ensures KnownRole(TypeDocument(v).value.role) && TargetsKnown(TypeDocument(v).value.images)
    ensures 1 <= |TypeDocument(v).value.images| <= 3
  {
    var images := v.entries[8].elements;
    TypedImages(images);
    hide TypeImages, TypeScalars, TypeCompatibility, TypeTriple;
  }

  lemma {:induction false} TypedImages(vs: seq<Value>)
    requires TypeImages(vs).Ok?
    ensures TargetsKnown(TypeImages(vs).value)
  {
    if vs != [] {
      TypedImages(vs[1..]);
      hide Uint, TextOf, BytesOf;
    }
  }

  function CheckManifestSpec(data: seq<byte>, identity: Identity, verify: Verify): Result<Checked, Status> {
    var manifest :- CheckPrefix(data, verify);
    var document :- TypeDocument(manifest);
    TypedDocument(manifest);
    var h := Unpack(data);
    var placement :- CheckDocument(document, identity, |data|, h.count, h.total);
    Ok(Checked(manifest, document, placement.offsets, placement.total))
  }

  // ---------------------------------------------------------------- the loops as they run

  method ImagesTyped(vs: seq<Value>) returns (r: Result<seq<Image>, Status>)
    ensures r == TypeImages(vs)
  {
    var images: seq<Image> := [];
    assert vs[0..] == vs;
    PrependStep([], [], TypeImages(vs));
    for i := 0 to |vs|
      invariant TypeImages(vs) == Prepend(images, TypeImages(vs[i..]))
    {
      hide TypeImage;
      assert vs[i..][0] == vs[i] && vs[i..][1..] == vs[i + 1..];
      var image :- TypeImage(vs[i]);
      PrependStep(images, [image], TypeImages(vs[i + 1..]));
      images := images + [image];
    }
    assert images + [] == images;
    r := Ok(images);
  }

  method PairsTyped(vs: seq<Value>) returns (r: Result<seq<(nat, nat)>, Status>)
    ensures r == TypePairs(vs)
  {
    var pairs: seq<(nat, nat)> := [];
    assert vs[0..] == vs;
    PrependStep([], [], TypePairs(vs));
    for i := 0 to |vs|
      invariant TypePairs(vs) == Prepend(pairs, TypePairs(vs[i..]))
    {
      hide Uint;
      assert vs[i..][0] == vs[i] && vs[i..][1..] == vs[i + 1..];
      var pair :- ListOf(vs[i], 2);
      var esp :- Uint(pair[0], U32);
      var stm :- Uint(pair[1], U32);
      PrependStep(pairs, [(esp, stm)], TypePairs(vs[i + 1..]));
      pairs := pairs + [(esp, stm)];
    }
    assert pairs + [] == pairs;
    r := Ok(pairs);
  }

  method CompatibilityTyped(v: Value) returns (r: Result<Compatibility, Status>)
    ensures r == TypeCompatibility(v)
  {
    hide TypeRange, TypePairs;
    if !IsMap(v, 4) {
      return Err(Malformed);
    }
    var m := v.entries;
    var esp :- TypeRange(m[0]);
    var stm :- TypeRange(m[1]);
    var peer :- TypeRange(m[2]);
    if !m[3].List? {
      return Err(Malformed);
    }
    if |m[3].elements| > COMBINATIONS_MAX {
      return Err(Oversize);
    }
    var pairs :- PairsTyped(m[3].elements);
    r := Ok(Compatibility(esp, stm, peer, pairs));
  }

  /** The typed walk over the whole manifest, with its loops over images and pairs. */
  method DocumentTyped(v: Value) returns (r: Result<Document, Status>)
    ensures r == TypeDocument(v)
  {
    hide TypeScalars, TypeImages, TypeCompatibility, TypeTriple;
    if !IsMap(v, 12) {
      return Err(Malformed);
    }
    var m := v.entries;
    assert forall i: nat :: i < 12 ==> i in m;
    var s :- TypeScalars(m);
    if !KnownRole(s.role) || !m[8].List? || !(1 <= |m[8].elements| <= 3) {
      return Err(Malformed);
    }
    var images :- ImagesTyped(m[8].elements);
    var compatibility :- CompatibilityTyped(m[9]);
    var config :- TypeTriple(m[10], U32);
    var requirements :- TypeTriple(m[11], U64);
    r := Ok(Document(s.packageId, s.role, s.board, s.layout, s.release, s.epoch, s.keyId, images, compatibility, config,
                     requirements));
  }

  method ImagesPlaced(d: Document, start: nat) returns (r: Result<Placement, Status>)
    requires KnownRole(d.role) && TargetsKnown(d.images)
    ensures r == CheckImages(d, d.images, start, {})
  {
    var offset: nat, offsets: seq<nat>, seen: set<nat> := start, [], {};
    ghost var images, whole := d.images, CheckImages(d, d.images, start, {});
    assert images[0..] == images;
    assert whole.Ok? ==> [] + whole.value.offsets == whole.value.offsets;
    for i := 0 to |d.images|
      invariant whole == JoinPlaced(offsets, CheckImages(d, images[i..], offset, seen))
    {
      hide ImageAllowed;
      var image := d.images[i];
      assert images[i..][0] == image && images[i..][1..] == images[i + 1..];
      offset := ImageOffset(offset);
      if !ImageAllowed(d, image) {
        return Err(Malformed);
      }
      if image.target in seen {
        return Err(Duplicate);
      }
      seen := seen + {image.target};
      if image.length > ImageLimit(image.target) || offset + image.length > 0xFFFFFFFF {
        return Err(Oversize);
      }
      PlacedStep(offsets, offset, CheckImages(d, images[i + 1..], offset + image.length, seen));
      offsets := offsets + [offset];
      offset := offset + image.length;
    }
    assert offsets + [] == offsets;
    r := Ok(Placement(offsets, offset));
  }

  ghost function JoinPlaced(offsets: seq<nat>, rest: Result<Placement, Status>): Result<Placement, Status> {
    if rest.Err? then rest else Ok(Placement(offsets + rest.value.offsets, rest.value.total))
  }

  lemma PlacedStep(offsets: seq<nat>, first: nat, rest: Result<Placement, Status>)
    ensures JoinPlaced(offsets, JoinPlaced([first], rest)) == JoinPlaced(offsets + [first], rest)
  {
    if rest.Ok? {
      assert offsets + ([first] + rest.value.offsets) == offsets + [first] + rest.value.offsets;
    }
  }

  method PairsChecked(c: Compatibility) returns (failed: Option<Status>)
    ensures failed == CheckPairs(c, c.pairs, {})
  {
    var seen: set<(nat, nat)> := {};
    assert c.pairs[0..] == c.pairs;
    for i := 0 to |c.pairs|
      invariant CheckPairs(c, c.pairs, {}) == CheckPairs(c, c.pairs[i..], seen)
    {
      var pair := c.pairs[i];
      assert c.pairs[i..][1..] == c.pairs[i + 1..];
      if !c.esp.Contains(pair.0) || !c.stm.Contains(pair.1) {
        return Some(Malformed);
      }
      if pair in seen {
        return Some(Duplicate);
      }
      seen := seen + {pair};
    }
    failed := None;
  }

  method CheckManifest(data: seq<byte>, identity: Identity, verify: Verify) returns (r: Result<Checked, Status>)
    ensures r == CheckManifestSpec(data, identity, verify)
  {
    hide CheckPrefix, TypeDocument, CheckImages, CheckPairs;
    var manifest :- CheckPrefix(data, verify);
    var d :- DocumentTyped(manifest);
    TypedDocument(manifest);
    if IdentityOf(d) != identity {
      return Err(AuthFailed);
    }
    PrefixHasHeader(data, verify);
    var h := Unpack(data);
    if |d.images| != h.count || |d.images| > (if d.role == 1 then 2 else 1)
       || !(d.config.0 <= d.config.2 <= d.config.1)
    {
      return Err(Malformed);
    }
    if (d.role == 1 && d.compatibility.pairs == []) || (d.role != 1 && d.compatibility.pairs != []) {
      return Err(Malformed);
    }
    var placement :- ImagesPlaced(d, |data|);
    var failed := PairsChecked(d.compatibility);
    if failed.Some? {
      return Err(failed.value);
    }
    if placement.total != h.total {
      return Err(Malformed);
    }
    r := Ok(Checked(manifest, d, placement.offsets, placement.total));
  }

  lemma PrefixHasHeader(data: seq<byte>, verify: Verify)
    requires CheckPrefix(data, verify).Ok?
    ensures HEADER_SIZE <= |data| <= MAX_PREFIX
  {
  }

  // ---------------------------------------------------------------- what is accepted

  function Targets(images: seq<Image>): (ts: seq<nat>)
    ensures |ts| == |images|
    ensures forall i :: 0 <= i < |images| ==> ts[i] == images[i].target
  {
    seq(|images|, i requires 0 <= i < |images| => images[i].target)
  }

  /** A manifest the device with this identity may install, judged without any loop. */
  predicate ValidFor(d: Document, identity: Identity) {
    && KnownRole(d.role) && TargetsKnown(d.images)
    && IdentityOf(d) == identity
    && |d.images| <= (if d.role == 1 then 2 else 1)
    && d.config.0 <= d.config.2 <= d.config.1
    && (d.role == 1 <==> d.compatibility.pairs != [])
    && (forall i :: 0 <= i < |d.images| ==>
          ImageAllowed(d, d.images[i]) && d.images[i].length <= ImageLimit(d.images[i].target))
    && Distinct(Targets(d.images))
    && (forall i :: 0 <= i < |d.compatibility.pairs| ==>
          && d.compatibility.esp.Contains(d.compatibility.pairs[i].0)
          && d.compatibility.stm.Contains(d.compatibility.pairs[i].1))
    && Distinct(d.compatibility.pairs)
  }

  ghost predicate ImagesValid(d: Document, images: seq<Image>, seen: set<nat>)
    requires KnownRole(d.role) && TargetsKnown(images)
  {
    && (forall i :: 0 <= i < |images| ==>
          && ImageAllowed(d, images[i])
          && images[i].length <= ImageLimit(images[i].target)
          && images[i].target !in seen)
    && (forall i, j :: 0 <= i < j < |images| ==> images[i].target != images[j].target)
  }

  lemma ImagesValidStep(d: Document, images: seq<Image>, seen: set<nat>)
    requires KnownRole(d.role) && TargetsKnown(images) && images != []
    ensures ImagesValid(d, images, seen) <==>
              && ImageAllowed(d, images[0]) && images[0].target !in seen
              && images[0].length <= ImageLimit(images[0].target)
              && ImagesValid(d, images[1..], seen + {images[0].target})
  {
    hide ImageAllowed;
    var rest, wider := images[1..], seen + {images[0].target};
    if ImagesValid(d, images, seen) {
      assert forall i :: 0 <= i < |rest| ==> rest[i] == images[i + 1];
    }
    if ImageAllowed(d, images[0]) && images[0].target !in seen
       && images[0].length <= ImageLimit(images[0].target) && ImagesValid(d, rest, wider)
    {
      forall i | 0 <= i < |images|
        ensures ImageAllowed(d, images[i]) && images[i].target !in seen
             && images[i].length <= ImageLimit(images[i].target)
      {
        assert i > 0 ==> images[i] == rest[i - 1];
      }
      forall i, j | 0 <= i < j < |images| ensures images[i].target != images[j].target {
        assert images[j] == rest[j - 1];
        assert i > 0 ==> images[i] == rest[i - 1];
      }
    }
  }

  /** The placement loop accepts exactly allowed images with distinct targets, and computes the same
      offsets and the same total as the assembler; its 32-bit test never fires within the limits. */
  lemma {:induction false} CheckImagesMeaning(d: Document, images: seq<Image>, offset: nat, seen: set<nat>)
    requires KnownRole(d.role) && TargetsKnown(images)
    requires offset + |images| * (MAX_IMAGE_BYTES + IMAGE_ALIGNMENT) <= 0xFFFFFFFF
    ensures CheckImages(d, images, offset, seen).Ok? <==> ImagesValid(d, images, seen)
    ensures CheckImages(d, images, offset, seen).Ok? ==>
              CheckImages(d, images, offset, seen).value
                == Placement(Offsets(offset, ImageLengths(images)), Total(offset, ImageLengths(images)))
    decreases |images|
  {
    if images != [] {
      hide ImageAllowed, ImagesValid;
      var image, aligned := images[0], ImageOffset(offset);
      ImagesValidStep(d, images, seen);
      assert ImageLengths(images)[1..] == ImageLengths(images[1..]);
      assert |images| * (MAX_IMAGE_BYTES + IMAGE_ALIGNMENT)
          == |images[1..]| * (MAX_IMAGE_BYTES + IMAGE_ALIGNMENT) + MAX_IMAGE_BYTES + IMAGE_ALIGNMENT;
      if image.length <= ImageLimit(image.target) {
        CheckImagesMeaning(d, images[1..], aligned + image.length, seen + {image.target});
      }
    } else {
      assert ImagesValid(d, images, seen);
    }
  }

  ghost predicate PairsValid(c: Compatibility, pairs: seq<(nat, nat)>, seen: set<(nat, nat)>) {
    && (forall i :: 0 <= i < |pairs| ==>
          c.esp.Contains(pairs[i].0) && c.stm.Contains(pairs[i].1) && pairs[i] !in seen)
    && Distinct(pairs)
  }

  lemma {:induction false} CheckPairsMeaning(c: Compatibility, pairs: seq<(nat, nat)>, seen: set<(nat, nat)>)
    ensures CheckPairs(c, pairs, seen).None? <==> PairsValid(c, pairs, seen)
  {
    if pairs != [] {
      var rest, wider := pairs[1..], seen + {pairs[0]};
      CheckPairsMeaning(c, rest, wider);
      assert forall i :: 0 <= i < |rest| ==> rest[i] == pairs[i + 1];
      if CheckPairs(c, pairs, seen).None? {
        forall i | 0 <= i < |pairs|
          ensures c.esp.Contains(pairs[i].0) && c.stm.Contains(pairs[i].1) && pairs[i] !in seen
        {
          assert i > 0 ==> pairs[i] == rest[i - 1];
        }
        forall i, j | 0 <= i < j < |pairs| ensures pairs[i] != pairs[j] {
          assert pairs[j] == rest[j - 1] && (i > 0 ==> pairs[i] == rest[i - 1]);
        }
      }
      if PairsValid(c, pairs, seen) {
        assert PairsValid(c, rest, wider);
      }
    }
  }

  /** The cross checks accept exactly the valid manifests whose header announces their images and
      their total. */
  lemma CheckDocumentMeaning(d: Document, identity: Identity, size: nat, count: nat, total: nat)
    requires KnownRole(d.role) && TargetsKnown(d.images) && |d.images| <= 3 && size <= MAX_PREFIX
    ensures CheckDocument(d, identity, size, count, total).Ok? <==>
              && ValidFor(d, identity)
              && count == |d.images|
              && total == Total(size, ImageLengths(d.images))
    ensures CheckDocument(d, identity, size, count, total).Ok? ==>
              CheckDocument(d, identity, size, count, total).value
                == Placement(Offsets(size, ImageLengths(d.images)), total)
  {
    assert |d.images| * (MAX_IMAGE_BYTES + IMAGE_ALIGNMENT) <= 3 * (MAX_IMAGE_BYTES + IMAGE_ALIGNMENT);
    CheckImagesMeaning(d, d.images, size, {});
    CheckPairsMeaning(d.compatibility, d.compatibility.pairs, {});
    ValidParts(d, identity);
    hide CheckImages, CheckPairs, ImagesValid, PairsValid, ValidFor, Offsets, Total;
  }

  lemma ValidParts(d: Document, identity: Identity)
    requires KnownRole(d.role) && TargetsKnown(d.images)
    ensures ValidFor(d, identity) <==>
              && IdentityOf(d) == identity
              && |d.images| <= (if d.role == 1 then 2 else 1)
              && d.config.0 <= d.config.2 <= d.config.1
              && (d.role == 1 <==> d.compatibility.pairs != [])
              && ImagesValid(d, d.images, {})
              && PairsValid(d.compatibility, d.compatibility.pairs, {})
  {
    hide ImageAllowed;
    assert Distinct(Targets(d.images)) <==>
             forall i, j :: 0 <= i < j < |d.images| ==> d.images[i].target != d.images[j].target by {
      if Distinct(Targets(d.images)) {
        forall i, j | 0 <= i < j < |d.images| ensures d.images[i].target != d.images[j].target {
          assert Targets(d.images)[i] != Targets(d.images)[j];
        }
      }
    }
  }

  /** The manifest check accepts exactly the prefixes that pack a document of a valid manifest with a
      verifying signature, the number of its images, and the total its image lengths lead to. */
  lemma CheckManifestAccepts(data: seq<byte>, identity: Identity, verify: Verify, v: Value, document: seq<byte>,
                             signature: seq<byte>, count: nat, total: nat)
    requires PrefixOf(data, verify, v, document, signature, count, total)
    ensures CheckManifestSpec(data, identity, verify).Ok? <==>
              && TypeDocument(v).Ok? && ValidFor(TypeDocument(v).value, identity)
              && count == |TypeDocument(v).value.images|
              && total == Total(|data|, ImageLengths(TypeDocument(v).value.images))
    ensures CheckManifestSpec(data, identity, verify).Ok? ==>
              CheckManifestSpec(data, identity, verify).value
                == Checked(v, TypeDocument(v).value,
                           Offsets(|data|, ImageLengths(TypeDocument(v).value.images)), total)
  {
    PrefixAccepted(data, verify, v, document, signature, count, total);
    PrefixHasHeader(data, verify);
    hide CheckPrefix, TypeDocument, CheckDocument, ValidFor, Pack, Unpack, EncodeDocument, Offsets, Total, ImageOffset;
    if TypeDocument(v).Ok? {
      TypedDocument(v);
      CheckDocumentMeaning(TypeDocument(v).value, identity, |data|, count, total);
    }
  }

  /** A valid manifest announces a total that the header test admits. */
  lemma ValidTotal(d: Document, identity: Identity, size: nat)
    requires ValidFor(d, identity) && 1 <= |d.images| <= 3 && size <= MAX_PREFIX
    ensures ImageOffset(size) + |d.images| <= Total(size, ImageLengths(d.images)) <= MAX_BUNDLE
  {
    var lengths := ImageLengths(d.images);
    assert forall i :: 0 <= i < |lengths| ==> 1 <= lengths[i] <= MAX_IMAGE_BYTES by {
      assert forall i :: 0 <= i < |lengths| ==> lengths[i] == d.images[i].length;
    }
    hide ValidFor;
    BundleFits(size, lengths);
    TotalGrows(ImageOffset(size) + lengths[0], lengths[1..]);
  }

  lemma {:induction false} TotalGrows(start: nat, lengths: seq<nat>)
    requires forall i :: 0 <= i < |lengths| ==> lengths[i] >= 1
    ensures Total(start, lengths) >= start + |lengths|
    decreases |lengths|
  {
    if lengths != [] {
      TotalGrows(ImageOffset(start) + lengths[0], lengths[1..]);
    }
  }

  // ---------------------------------------------------------------- the typed view loses nothing

  function IntRange(r: Range): Value {
    List([Int(r.low), Int(r.high)])
  }

  function ImageValue(i: Image): Value {
    Dict(map[0 := Int(i.target), 1 := Int(i.length), 2 := Bytes(i.digest), 3 := Text(i.version),
             4 := Int(i.sequence), 5 := Int(i.signature), 6 := Int(i.abi)])
  }

  function PairValue(p: (nat, nat)): Value {
    List([Int(p.0), Int(p.1)])
  }

  function CompatibilityValue(c: Compatibility): Value {
    Dict(map[0 := IntRange(c.esp), 1 := IntRange(c.stm), 2 := IntRange(c.peer),
             3 := List(seq(|c.pairs|, i requires 0 <= i < |c.pairs| => PairValue(c.pairs[i])))])
  }

  function TripleValue(t: (nat, nat, nat)): Value {
    List([Int(t.0), Int(t.1), Int(t.2)])
  }

  function ImagesValue(images: seq<Image>): Value {
    List(seq(|images|, i requires 0 <= i < |images| => ImageValue(images[i])))
  }

  function DocumentValue(d: Document): Value {
    Dict(map[0 := Int(FORMAT_VERSION), 1 := Bytes(d.packageId), 2 := Int(d.role), 3 := Text(d.board),
             4 := Text(d.layout), 5 := Text(d.release), 6 := Int(d.epoch), 7 := Int(d.keyId),
             8 := ImagesValue(d.images),
             9 := CompatibilityValue(d.compatibility), 10 := TripleValue(d.config), 11 := TripleValue(d.requirements)])
  }

  /** A manifest that passes the typed walk is the manifest its typed view spells: no field is dropped,
      renamed or duplicated on the way. */
  lemma TypedViewFaithful(v: Value)
    requires TypeDocument(v).Ok?
    ensures v == DocumentValue(TypeDocument(v).value)
  {
    var d, m := TypeDocument(v).value, v.entries;
    var s := TypedParts(v);
    ScalarsFaithful(m);
    ImagesFaithful(m[8].elements);
    assert m[8].elements == ImagesValue(d.images).elements;
    CompatibilityFaithful(m[9]);
    TripleFaithful(m[10], U32);
    TripleFaithful(m[11], U64);
    DocumentValueEntries(d);
    hide *;
    SameEntries(v, DocumentValue(d));
  }

  lemma DocumentValueEntries(d: Document)
    ensures var w := DocumentValue(d);
            && w.Dict? && (forall i: nat :: i < 12 ==> i in w.entries) && (forall i: nat :: i in w.entries ==> i < 12)
            && var n := w.entries;
            && n[0] == Int(FORMAT_VERSION) && n[1] == Bytes(d.packageId) && n[2] == Int(d.role)
            && n[3] == Text(d.board) && n[4] == Text(d.layout) && n[5] == Text(d.release)
            && n[6] == Int(d.epoch) && n[7] == Int(d.keyId) && n[8] == ImagesValue(d.images)
            && n[9] == CompatibilityValue(d.compatibility)
            && n[10] == TripleValue(d.config) && n[11] == TripleValue(d.requirements)
  {
    hide ImagesValue, CompatibilityValue, TripleValue;
  }

  lemma SameEntries(v: Value, w: Value)
    requires v.Dict? && w.Dict?
    requires (forall i: nat :: i < 12 ==> i in v.entries) && (forall i: nat :: i in v.entries ==> i < 12)
    requires (forall i: nat :: i < 12 ==> i in w.entries) && (forall i: nat :: i in w.entries ==> i < 12)
    requires var m, n := v.entries, w.entries;
             && m[0] == n[0] && m[1] == n[1] && m[2] == n[2] && m[3] == n[3] && m[4] == n[4] && m[5] == n[5]
             && m[6] == n[6] && m[7] == n[7] && m[8] == n[8] && m[9] == n[9] && m[10] == n[10] && m[11] == n[11]
    ensures v == w
  {
    assert v.entries == w.entries;
  }

  lemma TypedParts(v: Value) returns (s: Scalars)
    requires TypeDocument(v).Ok?
    ensures IsMap(v, 12)
    ensures var d, m := TypeDocument(v).value, v.entries;
            && TypeScalars(m) == Ok(s)
            && s == Scalars(d.packageId, d.role, d.board, d.layout, d.release, d.epoch, d.keyId)
            && m[8].List? && TypeImages(m[8].elements) == Ok(d.images)
            && TypeCompatibility(m[9]) == Ok(d.compatibility)
            && TypeTriple(m[10], U32) == Ok(d.config) && TypeTriple(m[11], U64) == Ok(d.requirements)
  {
    hide TypeScalars, TypeImages, TypeCompatibility, TypeTriple;
    s := TypeScalars(v.entries).value;
  }

  lemma ScalarsFaithful(m: map<nat, Value>)
    requires (forall i: nat :: i < 12 ==> i in m) && TypeScalars(m).Ok?
    ensures var s := TypeScalars(m).value;
            && m[0] == Int(FORMAT_VERSION) && m[1] == Bytes(s.packageId) && m[2] == Int(s.role)
            && m[3] == Text(s.board) && m[4] == Text(s.layout) && m[5] == Text(s.release)
            && m[6] == Int(s.epoch) && m[7] == Int(s.keyId)
  {
  }

  lemma TripleFaithful(v: Value, limit: nat)
    requires TypeTriple(v, limit).Ok?
    ensures v == TripleValue(TypeTriple(v, limit).value)
  {
  }

  lemma RangeFaithful(v: Value)
    requires TypeRange(v).Ok?
    ensures v == IntRange(TypeRange(v).value)
  {
  }

  lemma ImageFaithful(v: Value)
    requires TypeImage(v).Ok?
    ensures v == ImageValue(TypeImage(v).value)
  {
    var w := ImageValue(TypeImage(v).value);
    assert forall i: nat :: i in v.entries ==> i in w.entries && v.entries[i] == w.entries[i];
    assert v.entries == w.entries;
  }

  lemma {:induction false} ImagesFaithful(vs: seq<Value>)
    requires TypeImages(vs).Ok?
    ensures forall i :: 0 <= i < |vs| ==> vs[i] == ImageValue(TypeImages(vs).value[i])
  {
    if vs != [] {
      ImageFaithful(vs[0]);
      ImagesFaithful(vs[1..]);
      hide TypeImage, ImageValue;
    }
  }

  lemma {:induction false} PairsFaithful(vs: seq<Value>)
    requires TypePairs(vs).Ok?
    ensures forall i :: 0 <= i < |vs| ==> vs[i] == PairValue(TypePairs(vs).value[i])
  {
    if vs != [] {
      PairsFaithful(vs[1..]);
    }
  }

  lemma CompatibilityFaithful(v: Value)
    requires TypeCompatibility(v).Ok?
    ensures v == CompatibilityValue(TypeCompatibility(v).value)
  {
    var c := TypeCompatibility(v).value;
    RangeFaithful(v.entries[0]);
    RangeFaithful(v.entries[1]);
    RangeFaithful(v.entries[2]);
    PairsFaithful(v.entries[3].elements);
    hide TypeRange, TypePairs, IntRange, PairValue;
    var w := CompatibilityValue(c);
    assert v.entries[3].elements == w.entries[3].elements;
    assert forall i: nat :: i in v.entries ==> i in w.entries && v.entries[i] == w.entries[i];
    assert v.entries == w.entries;
  }
}
