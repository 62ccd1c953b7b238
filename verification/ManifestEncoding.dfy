/** The typed view of a manifest against its document: every typed manifest has one, and every document of
 *  fields in range is typed. */
module ManifestEncoding {
  import opened Prelude
  import Utf8
  import opened Cbor
  import CborProofs
  import opened Envelope
  import opened Manifest

  // ---------------------------------------------------------------- fields in range

  predicate Printable(t: seq<Utf8.codepoint>) {
    1 <= |t| <= TEXT_MAX && forall i :: 0 <= i < |t| ==> 0x20 <= t[i] <= 0x7E
  }

  ghost predicate ImageInRange(i: Image) {
    && KnownTarget(i.target)
    && i.length < U32
    && |i.digest| == 32
    && Printable(i.version)
    && i.sequence < U64
    && (i.signature == 1 || i.signature == 2)
    && i.abi < U32
  }

  predicate RangeOk(r: Range) {
    r.low <= r.high < U32
  }

  ghost predicate CompatibilityInRange(c: Compatibility) {
    && RangeOk(c.esp) && RangeOk(c.stm) && RangeOk(c.peer)
    && |c.pairs| <= COMBINATIONS_MAX && PairsInRange(c.pairs)
  }

  predicate ScalarsInRange(d: Document) {
    && |d.packageId| == 16
    && KnownRole(d.role)
    && Printable(d.board) && Printable(d.layout) && Printable(d.release)
    && d.epoch < U32 && d.keyId < U32
  }

  ghost predicate InRange(d: Document) {
    && ScalarsInRange(d)
    && 1 <= |d.images| <= 3
    && ImagesInRange(d.images)
    && CompatibilityInRange(d.compatibility)
    && d.config.0 < U32 && d.config.1 < U32 && d.config.2 < U32
    && d.requirements.0 < U32 && d.requirements.1 < U32 && d.requirements.2 < U64
  }

  // ---------------------------------------------------------------- typing what was spelled

  lemma TypedText(v: Value, t: seq<Utf8.codepoint>)
    ensures TextOf(v) == Ok(t) <==> v == Text(t) && Printable(t)
  {
  }

  lemma TypedNumber(v: Value, limit: nat, n: nat)
    ensures Uint(v, limit) == Ok(n) <==> v == Int(n) && n < limit
  {
  }

  lemma TypedImage(v: Value, i: Image)
    ensures TypeImage(v) == Ok(i) <==> v == ImageValue(i) && ImageInRange(i)
  {
    ImageEntries(v, i);
    if IsMap(v, 7) {
      var m := v.entries;
      TypedNumber(m[0], U32, i.target);
      TypedNumber(m[1], U32, i.length);
      TypedText(m[3], i.version);
      TypedNumber(m[4], U64, i.sequence);
      TypedNumber(m[5], U32, i.signature);
      TypedNumber(m[6], U32, i.abi);
    }
    hide ImageValue, TextOf, Uint, Printable;
  }

  lemma ImageEntries(v: Value, i: Image)
    ensures v == ImageValue(i) <==>
              && IsMap(v, 7)
              && var m := v.entries;
                 && m[0] == Int(i.target) && m[1] == Int(i.length) && m[2] == Bytes(i.digest)
                 && m[3] == Text(i.version) && m[4] == Int(i.sequence) && m[5] == Int(i.signature)
                 && m[6] == Int(i.abi)
  {
    if IsMap(v, 7)
       && var m, n := v.entries, ImageValue(i).entries;
          && m[0] == n[0] && m[1] == n[1] && m[2] == n[2] && m[3] == n[3] && m[4] == n[4] && m[5] == n[5] && m[6] == n[6]
    {
      assert v.entries == ImageValue(i).entries;
    }
  }

  ghost predicate ImagesInRange(images: seq<Image>) {
    forall i :: 0 <= i < |images| ==> ImageInRange(images[i])
  }

  lemma {:induction false} TypedImageList(vs: seq<Value>, images: seq<Image>)
    ensures TypeImages(vs) == Ok(images) <==> List(vs) == ImagesValue(images) && ImagesInRange(images)
  {
    hide TypeImage, ImageValue, ImageInRange;
    if vs == [] || images == [] {
      assert images == [] ==> ImagesValue(images).elements == [];
      assert images != [] && vs == [] ==> ImagesValue(images).elements != vs;
    } else {
      TypedImage(vs[0], images[0]);
      TypedImageList(vs[1..], images[1..]);
      ImagesValueStep(images, vs);
      TypeImagesStep(vs, images);
      hide *;
      ImagesRangeStep(images);
    }
  }

  lemma ImagesValueStep(images: seq<Image>, vs: seq<Value>)
    requires vs != [] && images != []
    ensures List(vs) == ImagesValue(images) <==> vs[0] == ImageValue(images[0]) && List(vs[1..]) == ImagesValue(images[1..])
  {
    hide ImageValue;
    var ws, rest := ImagesValue(images).elements, ImagesValue(images[1..]).elements;
    assert ws == [ImageValue(images[0])] + rest;
    assert vs == [vs[0]] + vs[1..];
    assert ws[1..] == rest;
  }

  lemma TypeImagesStep(vs: seq<Value>, images: seq<Image>)
    requires vs != [] && images != []
    ensures TypeImages(vs) == Ok(images) <==> TypeImage(vs[0]) == Ok(images[0]) && TypeImages(vs[1..]) == Ok(images[1..])
  {
    hide TypeImage;
    assert images == [images[0]] + images[1..];
  }

  lemma ImagesRangeStep(images: seq<Image>)
    requires images != []
    ensures ImagesInRange(images) <==> ImageInRange(images[0]) && ImagesInRange(images[1..])
  {
    hide ImageInRange;
    assert images == [images[0]] + images[1..];
  }

  lemma TypedRange(v: Value, r: Range)
    ensures TypeRange(v) == Ok(r) <==> v == IntRange(r) && RangeOk(r)
  {
  }

  ghost predicate PairsInRange(pairs: seq<(nat, nat)>) {
    forall i :: 0 <= i < |pairs| ==> pairs[i].0 < U32 && pairs[i].1 < U32
  }

  function PairsValue(pairs: seq<(nat, nat)>): Value {
    List(seq(|pairs|, i requires 0 <= i < |pairs| => PairValue(pairs[i])))
  }

  lemma {:induction false} TypedPairList(vs: seq<Value>, pairs: seq<(nat, nat)>)
    ensures TypePairs(vs) == Ok(pairs) <==> List(vs) == PairsValue(pairs) && PairsInRange(pairs)
  {
    if vs == [] || pairs == [] {
      assert pairs == [] ==> PairsValue(pairs).elements == [];
      assert pairs != [] && vs == [] ==> PairsValue(pairs).elements != vs;
    } else {
      TypedPairList(vs[1..], pairs[1..]);
      PairsValueStep(vs, pairs);
      TypePairsStep(vs, pairs);
      hide *;
      PairsRangeStep(pairs);
    }
  }

  lemma PairsValueStep(vs: seq<Value>, pairs: seq<(nat, nat)>)
    requires vs != [] && pairs != []
    ensures List(vs) == PairsValue(pairs) <==> vs[0] == PairValue(pairs[0]) && List(vs[1..]) == PairsValue(pairs[1..])
  {
    hide PairValue;
    var ws, rest := PairsValue(pairs).elements, PairsValue(pairs[1..]).elements;
    assert ws == [PairValue(pairs[0])] + rest;
    assert vs == [vs[0]] + vs[1..];
    assert ws[1..] == rest;
  }

  lemma TypePairsStep(vs: seq<Value>, pairs: seq<(nat, nat)>)
    requires vs != [] && pairs != []
    ensures TypePairs(vs) == Ok(pairs) <==>
              && vs[0] == PairValue(pairs[0]) && pairs[0].0 < U32 && pairs[0].1 < U32
              && TypePairs(vs[1..]) == Ok(pairs[1..])
  {
    assert pairs == [pairs[0]] + pairs[1..];
  }

  lemma PairsRangeStep(pairs: seq<(nat, nat)>)
    requires pairs != []
    ensures PairsInRange(pairs) <==> pairs[0].0 < U32 && pairs[0].1 < U32 && PairsInRange(pairs[1..])
  {
    assert pairs == [pairs[0]] + pairs[1..];
  }

  lemma TypedCompatibility(v: Value, c: Compatibility)
    ensures TypeCompatibility(v) == Ok(c) <==> v == CompatibilityValue(c) && CompatibilityInRange(c)
  {
    CompatibilityParts(v, c);
    CompatibilityEntries(v, c);
    if IsMap(v, 4) {
      var m := v.entries;
      TypedRange(m[0], c.esp);
      TypedRange(m[1], c.stm);
      TypedRange(m[2], c.peer);
      if m[3].List? {
        TypedPairList(m[3].elements, c.pairs);
      }
    }
    hide TypeCompatibility, TypeRange, TypePairs, CompatibilityValue, IntRange, RangeOk;
  }

  lemma CompatibilityParts(v: Value, c: Compatibility)
    ensures TypeCompatibility(v) == Ok(c) <==>
              && IsMap(v, 4)
              && TypeRange(v.entries[0]) == Ok(c.esp) && TypeRange(v.entries[1]) == Ok(c.stm)
              && TypeRange(v.entries[2]) == Ok(c.peer)
              && v.entries[3].List? && |v.entries[3].elements| <= COMBINATIONS_MAX
              && TypePairs(v.entries[3].elements) == Ok(c.pairs)
  {
    hide TypeRange, TypePairs;
  }

  lemma CompatibilityEntries(v: Value, c: Compatibility)
    ensures v == CompatibilityValue(c) <==>
              && IsMap(v, 4)
              && v.entries[0] == IntRange(c.esp) && v.entries[1] == IntRange(c.stm) && v.entries[2] == IntRange(c.peer)
              && v.entries[3] == PairsValue(c.pairs)
  {
    hide IntRange, PairValue;
    var w := CompatibilityValue(c);
    assert IsMap(w, 4);
    assert w.entries[3].elements == PairsValue(c.pairs).elements;
    if IsMap(v, 4) && v.entries[0] == w.entries[0] && v.entries[1] == w.entries[1] && v.entries[2] == w.entries[2]
       && v.entries[3] == w.entries[3]
    {
      assert v.entries == w.entries;
    }
  }

  lemma TypedTriple(v: Value, limit: nat, t: (nat, nat, nat))
    ensures TypeTriple(v, limit) == Ok(t) <==> v == TripleValue(t) && t.0 < U32 && t.1 < U32 && t.2 < limit
  {
    if v.List? && |v.elements| == 3 {
      TypedNumber(v.elements[0], U32, t.0);
      TypedNumber(v.elements[1], U32, t.1);
      TypedNumber(v.elements[2], limit, t.2);
      assert v == TripleValue(t) <==>
               v.elements[0] == Int(t.0) && v.elements[1] == Int(t.1) && v.elements[2] == Int(t.2);
    }
    hide Uint;
  }

  lemma TypedScalars(m: map<nat, Value>, s: Scalars)
    requires forall i: nat :: i < 12 ==> i in m
    ensures TypeScalars(m) == Ok(s) <==>
              && m[0] == Int(FORMAT_VERSION) && m[1] == Bytes(s.packageId) && |s.packageId| == 16
              && m[2] == Int(s.role) && s.role < U32
              && m[3] == Text(s.board) && m[4] == Text(s.layout) && m[5] == Text(s.release)
              && Printable(s.board) && Printable(s.layout) && Printable(s.release)
              && m[6] == Int(s.epoch) && m[7] == Int(s.keyId) && s.epoch < U32 && s.keyId < U32
  {
    TypedText(m[3], s.board);
    TypedText(m[4], s.layout);
    TypedText(m[5], s.release);
    TypedNumber(m[0], U32, FORMAT_VERSION);
    TypedNumber(m[2], U32, s.role);
    TypedNumber(m[6], U32, s.epoch);
    TypedNumber(m[7], U32, s.keyId);
    hide TextOf, Printable, Uint;
  }

  /** The typed walk accepts `v` as `d` exactly when `v` is the dict that spells `d` and every field of `d` is in
      its range: each in-range manifest is accepted, and no other value is. */
  lemma TypedBijection(v: Value, d: Document)
    ensures TypeDocument(v) == Ok(d) <==> v == DocumentValue(d) && InRange(d)
  {
    DocumentParts(v, d);
    DocumentEntries(v, d);
    if IsMap(v, 12) {
      var m := v.entries;
      assert forall i: nat :: i < 12 ==> i in m;
      TypedScalars(m, ScalarsOf(d));
      if m[8].List? {
        TypedImageList(m[8].elements, d.images);
      }
      TypedCompatibility(m[9], d.compatibility);
      TypedTriple(m[10], U32, d.config);
      TypedTriple(m[11], U64, d.requirements);
      RangeParts(d);
    }
    hide TypeDocument, TypeScalars, TypeImages, TypeCompatibility, TypeTriple, DocumentValue, CompatibilityValue,
      TripleValue, InRange, ImagesInRange, CompatibilityInRange, Printable;
  }

  function ScalarsOf(d: Document): Scalars {
    Scalars(d.packageId, d.role, d.board, d.layout, d.release, d.epoch, d.keyId)
  }

  lemma RangeParts(d: Document)
    ensures InRange(d) <==>
              && |d.packageId| == 16 && KnownRole(d.role) && d.role < U32
              && Printable(d.board) && Printable(d.layout) && Printable(d.release)
              && d.epoch < U32 && d.keyId < U32
              && 1 <= |d.images| <= 3 && ImagesInRange(d.images)
              && CompatibilityInRange(d.compatibility)
              && d.config.0 < U32 && d.config.1 < U32 && d.config.2 < U32
              && d.requirements.0 < U32 && d.requirements.1 < U32 && d.requirements.2 < U64
  {
    hide Printable, ImageInRange, CompatibilityInRange;
  }

  lemma DocumentParts(v: Value, d: Document)
    ensures TypeDocument(v) == Ok(d) <==>
              && IsMap(v, 12)
              && (forall i: nat :: i < 12 ==> i in v.entries)
              && TypeScalars(v.entries) == Ok(ScalarsOf(d)) && KnownRole(d.role)
              && v.entries[8].List? && 1 <= |v.entries[8].elements| <= 3
              && TypeImages(v.entries[8].elements) == Ok(d.images)
              && TypeCompatibility(v.entries[9]) == Ok(d.compatibility)
              && TypeTriple(v.entries[10], U32) == Ok(d.config)
              && TypeTriple(v.entries[11], U64) == Ok(d.requirements)
  {
    hide TypeScalars, TypeImages, TypeCompatibility, TypeTriple;
    if TypeDocument(v) == Ok(d) {
      var s := TypedParts(v);
    }
  }

  lemma DocumentEntries(v: Value, d: Document)
    ensures v == DocumentValue(d) <==>
              && IsMap(v, 12)
              && var m := v.entries;
                 && m[0] == Int(FORMAT_VERSION) && m[1] == Bytes(d.packageId) && m[2] == Int(d.role)
                 && m[3] == Text(d.board) && m[4] == Text(d.layout) && m[5] == Text(d.release)
                 && m[6] == Int(d.epoch) && m[7] == Int(d.keyId) && m[8] == ImagesValue(d.images)
                 && m[9] == CompatibilityValue(d.compatibility)
                 && m[10] == TripleValue(d.config) && m[11] == TripleValue(d.requirements)
  {
    DocumentValueEntries(d);
    hide DocumentValue, ImagesValue, CompatibilityValue, TripleValue;
    if IsMap(v, 12)
       && var m, n := v.entries, DocumentValue(d).entries;
          && m[0] == n[0] && m[1] == n[1] && m[2] == n[2] && m[3] == n[3] && m[4] == n[4] && m[5] == n[5]
          && m[6] == n[6] && m[7] == n[7] && m[8] == n[8] && m[9] == n[9] && m[10] == n[10] && m[11] == n[11]
    {
      SameEntries(v, DocumentValue(d));
    }
  }

  // ---------------------------------------------------------------- the size of a manifest

  /** How many bytes and how many data items. */
  datatype Bound = Bound(bytes: nat, items: nat)

  ghost predicate Small(v: Value, depth: nat, b: Bound) {
    Fits(v, depth) && |Spell(v)| <= b.bytes && Count(v) <= b.items
  }

  lemma SmallNumber(n: nat, depth: nat)
    requires n < U64
    ensures Small(Int(n), depth, Bound(9, 1))
    ensures n < U32 ==> Small(Int(n), depth, Bound(5, 1))
  {
  }

  lemma SmallBytes(raw: seq<byte>, depth: nat)
    requires |raw| < 256
    ensures Small(Bytes(raw), depth, Bound(2 + |raw|, 1))
  {
  }

  lemma {:induction false} PrintableSize(t: seq<Utf8.codepoint>)
    requires forall i :: 0 <= i < |t| ==> 0x20 <= t[i] <= 0x7E
    ensures Utf8.Encode(t).Some? && |Utf8.Encode(t).value| == |t|
  {
    if t != [] {
      PrintableSize(t[1..]);
    }
  }

  lemma SmallText(t: seq<Utf8.codepoint>, depth: nat)
    requires Printable(t)
    ensures Small(Text(t), depth, Bound(2 + TEXT_MAX, 1))
  {
    PrintableSize(t);
    hide Utf8.Encode;
  }

  lemma SmallerStill(v: Value, depth: nat, b: Bound, c: Bound)
    requires Small(v, depth, b) && b.bytes <= c.bytes && b.items <= c.items
    ensures Small(v, depth, c)
  {
    hide Fits, Spell, Count;
  }

  lemma Distributed(n: nat, k: nat)
    requires n > 0
    ensures n * k == k + (n - 1) * k
  {
  }

  lemma {:induction false} ElementsSmall(vs: seq<Value>, depth: nat, b: Bound)
    requires forall i :: 0 <= i < |vs| ==> Small(vs[i], depth, b)
    ensures |SpellAll(vs)| <= |vs| * b.bytes && CountAll(vs) <= |vs| * b.items
  {
    if vs != [] {
      ElementsSmall(vs[1..], depth, b);
      Distributed(|vs|, b.bytes);
      Distributed(|vs|, b.items);
      hide Fits, Spell, Count;
    }
  }

  /** A list of `n` elements within `b`. */
  function ListBound(n: nat, b: Bound): Bound {
    Bound(1 + n * b.bytes, 1 + n * b.items)
  }

  lemma SmallList(vs: seq<Value>, depth: nat, b: Bound)
    requires |vs| < 24 && depth < MAX_DEPTH
    requires forall i :: 0 <= i < |vs| ==> Small(vs[i], depth + 1, b)
    ensures Small(List(vs), depth, ListBound(|vs|, b))
  {
    ElementsSmall(vs, depth + 1, b);
    hide SpellAll, CountAll;
  }

  function KeysFrom(from: nat, n: nat): seq<nat>
    requires from <= n
  {
    seq(n - from, i requires 0 <= i < n - from => from + i)
  }

  /** The entries of `v` from one key on, all but one key within `usual`. */
  ghost predicate EntriesSmall(v: Value, n: nat, depth: nat, big: nat, usual: Bound, large: Bound) {
    && IsMap(v, n) && n < 24
    && forall k: nat :: k < n ==> k in v.entries && Small(v.entries[k], depth, if k == big then large else usual)
  }

  /** What the entries from one key on take, each key one of anything. */
  function EntriesBound(from: nat, n: nat, big: nat, usual: nat, large: nat): nat
    decreases n - from
  {
    if from >= n then 0 else 1 + (if from == big then large else usual) + EntriesBound(from + 1, n, big, usual, large)
  }

  lemma {:induction false} EntriesSize(v: Value, from: nat, n: nat, depth: nat, big: nat, usual: Bound, large: Bound)
    requires EntriesSmall(v, n, depth, big, usual, large) && from <= n
    ensures CborProofs.Listed(v, KeysFrom(from, n))
    ensures |SpellEntries(v, KeysFrom(from, n))| <= EntriesBound(from, n, big, usual.bytes, large.bytes)
    ensures CountEntries(v, KeysFrom(from, n)) <= EntriesBound(from, n, big, usual.items, large.items)
    decreases n - from
  {
    hide Small, Spell, Count, SpellEntries, CountEntries;
    if from == n {
      NoEntries(v, n);
    } else {
      EntriesSize(v, from + 1, n, depth, big, usual, large);
      assert KeysFrom(from, n)[1..] == KeysFrom(from + 1, n);
      CborProofs.SpellEntriesStep(v, KeysFrom(from, n));
      EntrySmall(v, from, n, depth, big, usual, large);
    }
  }

  lemma NoEntries(v: Value, n: nat)
    requires IsMap(v, n)
    ensures CborProofs.Listed(v, KeysFrom(n, n))
    ensures SpellEntries(v, KeysFrom(n, n)) == [] && CountEntries(v, KeysFrom(n, n)) == 0
  {
  }

  lemma EntrySmall(v: Value, k: nat, n: nat, depth: nat, big: nat, usual: Bound, large: Bound)
    requires EntriesSmall(v, n, depth, big, usual, large) && k < n
    ensures k in v.entries && |Head(0, k)| == 1
    ensures |Spell(v.entries[k])| <= (if k == big then large else usual).bytes
    ensures Count(v.entries[k]) <= (if k == big then large else usual).items
  {
    hide Fits, Spell, Count;
  }

  lemma MapKeys(v: Value, n: nat)
    requires IsMap(v, n)
    ensures SortedKeys(v.entries.Keys) == KeysFrom(0, n) && |v.entries| == n
  {
    var ks := KeysFrom(0, n);
    forall k: nat ensures k in ks <==> k in v.entries.Keys {
      if k < n {
        assert ks[k] == k;
      }
    }
    SortedKeysUnique(v.entries.Keys, ks);
  }

  /** A dict of `n` entries with short keys, one of them within `large` and the others within `usual`. */
  function DictBound(n: nat, big: nat, usual: Bound, large: Bound): Bound {
    Bound(1 + EntriesBound(0, n, big, usual.bytes, large.bytes), 1 + EntriesBound(0, n, big, usual.items, large.items))
  }

  lemma SmallDict(v: Value, n: nat, depth: nat, big: nat, usual: Bound, large: Bound)
    requires EntriesSmall(v, n, depth + 1, big, usual, large) && depth < MAX_DEPTH
    ensures Small(v, depth, DictBound(n, big, usual, large))
  {
    hide *;
    DictFits(v, n, depth, big, usual, large);
    MapKeys(v, n);
    ShortHead(5, n);
    CborProofs.DictSpelling(v);
    EntriesSize(v, 0, n, depth + 1, big, usual, large);
    DictSize(v, n, depth, big, usual, large);
  }

  lemma ShortHead(major: nat, n: nat)
    requires major < 8
    ensures n < 24 ==> |Head(major, n)| == 1
  {
  }

  lemma DictFits(v: Value, n: nat, depth: nat, big: nat, usual: Bound, large: Bound)
    requires EntriesSmall(v, n, depth + 1, big, usual, large) && depth < MAX_DEPTH
    ensures Fits(v, depth) && IsMap(v, n) && v.Dict? && n < 24 && |v.entries| == n < U64
  {
    MapKeys(v, n);
    hide Spell, Count, SortedKeys, KeysFrom;
  }

  lemma DictSize(v: Value, n: nat, depth: nat, big: nat, usual: Bound, large: Bound)
    requires Fits(v, depth)
    requires |Spell(v)| <= 1 + EntriesBound(0, n, big, usual.bytes, large.bytes)
    requires Count(v) <= 1 + EntriesBound(0, n, big, usual.items, large.items)
    ensures Small(v, depth, DictBound(n, big, usual, large))
  {
    hide Fits, Spell, Count, EntriesBound;
  }

  const SCALAR := Bound(34, 1)
  const TEXT := Bound(2 + TEXT_MAX, 1)
  const RANGE := Bound(11, 3)
  const PAIRS := Bound(177, 49)
  const IMAGE := Bound(277, 15)
  const IMAGES := Bound(832, 46)
  const COMPATIBILITY := Bound(215, 63)

  lemma SmallScalar(n: nat, depth: nat)
    requires n < U64
    ensures Small(Int(n), depth, SCALAR)
  {
    SmallNumber(n, depth);
    hide Fits, Spell, Count;
  }

  lemma SmallImage(i: Image, depth: nat)
    requires ImageInRange(i) && depth < MAX_DEPTH
    ensures Small(ImageValue(i), depth, IMAGE)
  {
    var v := ImageValue(i);
    ImageEntries(v, i);
    SmallScalar(i.target, depth + 1);
    SmallScalar(i.length, depth + 1);
    SmallBytes(i.digest, depth + 1);
    SmallText(i.version, depth + 1);
    SmallScalar(i.sequence, depth + 1);
    SmallScalar(i.signature, depth + 1);
    SmallScalar(i.abi, depth + 1);
    hide Small, ImageValue, Printable;
    assert EntriesSmall(v, 7, depth + 1, 3, SCALAR, TEXT);
    SmallDict(v, 7, depth, 3, SCALAR, TEXT);
  }

  lemma SmallImages(images: seq<Image>, depth: nat)
    requires ImagesInRange(images) && |images| <= 3 && depth < MAX_DEPTH - 1
    ensures Small(ImagesValue(images), depth, IMAGES)
  {
    hide Fits, Spell, Count, ImageValue, ImageInRange;
    var vs := ImagesValue(images).elements;
    forall i | 0 <= i < |vs| ensures Small(vs[i], depth + 1, IMAGE) {
      SmallImage(images[i], depth + 1);
    }
    SmallList(vs, depth, IMAGE);
  }

  lemma SmallRange(r: Range, depth: nat)
    requires RangeOk(r) && depth < MAX_DEPTH
    ensures Small(IntRange(r), depth, RANGE)
  {
    SmallNumber(r.low, depth + 1);
    SmallNumber(r.high, depth + 1);
    hide Fits, Spell, Count;
    SmallList([Int(r.low), Int(r.high)], depth, Bound(5, 1));
  }

  lemma SmallPairs(pairs: seq<(nat, nat)>, depth: nat)
    requires PairsInRange(pairs) && |pairs| <= COMBINATIONS_MAX && depth < MAX_DEPTH - 1
    ensures Small(PairsValue(pairs), depth, PAIRS)
  {
    hide Fits, Spell, Count;
    var vs := PairsValue(pairs).elements;
    forall i | 0 <= i < |vs| ensures Small(vs[i], depth + 1, RANGE) {
      var p := pairs[i];
      SmallNumber(p.0, depth + 2);
      SmallNumber(p.1, depth + 2);
      SmallList([Int(p.0), Int(p.1)], depth + 1, Bound(5, 1));
    }
    SmallList(vs, depth, RANGE);
  }

  lemma SmallCompatibility(c: Compatibility, depth: nat)
    requires CompatibilityInRange(c) && depth < MAX_DEPTH - 2
    ensures Small(CompatibilityValue(c), depth, COMPATIBILITY)
  {
    var v := CompatibilityValue(c);
    CompatibilityEntries(v, c);
    SmallRange(c.esp, depth + 1);
    SmallRange(c.stm, depth + 1);
    SmallRange(c.peer, depth + 1);
    SmallPairs(c.pairs, depth + 1);
    hide Small, CompatibilityValue, IntRange, PairsValue, PairsInRange, RangeOk;
    assert EntriesSmall(v, 4, depth + 1, 3, RANGE, PAIRS);
    SmallDict(v, 4, depth, 3, RANGE, PAIRS);
  }

  lemma SmallTriple(t: (nat, nat, nat), depth: nat)
    requires t.0 < U32 && t.1 < U32 && t.2 < U64 && depth < MAX_DEPTH
    ensures Small(TripleValue(t), depth, Bound(28, 4))
  {
    SmallNumber(t.0, depth + 1);
    SmallNumber(t.1, depth + 1);
    SmallNumber(t.2, depth + 1);
    hide Fits, Spell, Count;
    SmallList([Int(t.0), Int(t.1), Int(t.2)], depth, Bound(9, 1));
  }

  /** The largest member of a manifest, in bytes and in items. */
  const MEMBER := Bound(832, 63)

  lemma ScalarMember(v: Value, b: Bound)
    requires Small(v, 1, b) && b.bytes <= MEMBER.bytes && b.items <= MEMBER.items
    ensures Small(v, 1, MEMBER)
  {
    SmallerStill(v, 1, b, MEMBER);
  }

  lemma NumberMember(n: nat)
    requires n < U32 || n == FORMAT_VERSION
    ensures Small(Int(n), 1, MEMBER)
  {
    SmallScalar(n, 1);
    hide Small;
    ScalarMember(Int(n), SCALAR);
  }

  lemma TextMember(t: seq<Utf8.codepoint>)
    requires Printable(t)
    ensures Small(Text(t), 1, MEMBER)
  {
    SmallText(t, 1);
    hide Small;
    ScalarMember(Text(t), TEXT);
  }

  lemma TripleMember(t: (nat, nat, nat))
    requires t.0 < U32 && t.1 < U32 && (t.2 < U32 || t.2 < U64)
    ensures Small(TripleValue(t), 1, MEMBER)
  {
    SmallTriple(t, 1);
    hide Small;
    ScalarMember(TripleValue(t), Bound(28, 4));
  }

  lemma StructureMembers(d: Document)
    requires ImagesInRange(d.images) && |d.images| <= 3 && CompatibilityInRange(d.compatibility)
    requires |d.packageId| == 16
    ensures Small(ImagesValue(d.images), 1, MEMBER) && Small(CompatibilityValue(d.compatibility), 1, MEMBER)
    ensures Small(Bytes(d.packageId), 1, MEMBER)
  {
    SmallImages(d.images, 1);
    SmallCompatibility(d.compatibility, 1);
    SmallBytes(d.packageId, 1);
    hide Small, ImagesInRange, CompatibilityInRange, ImagesValue, CompatibilityValue;
    ScalarMember(ImagesValue(d.images), IMAGES);
    ScalarMember(CompatibilityValue(d.compatibility), COMPATIBILITY);
    ScalarMember(Bytes(d.packageId), Bound(18, 1));
  }

  /** A manifest of fields in range takes less than ten kilobytes and eight hundred data items. */
  lemma SmallDocument(d: Document)
    requires InRange(d)
    ensures Small(DocumentValue(d), 0, Bound(9997, 769))
  {
    hide *;
    var v := DocumentValue(d);
    RangeParts(d);
    DocumentEntries(v, d);
    MapHolds(v);
    NumberMember(FORMAT_VERSION);
    NumberMember(d.role);
    TextMember(d.board);
    TextMember(d.layout);
    TextMember(d.release);
    NumberMember(d.epoch);
    NumberMember(d.keyId);
    StructureMembers(d);
    TripleMember(d.config);
    TripleMember(d.requirements);
    AllMembers(v);
    DocumentBound();
    SmallDict(v, 12, 0, 12, MEMBER, MEMBER);
  }

  lemma MapHolds(v: Value)
    requires IsMap(v, 12)
    ensures v.Dict? && forall k: nat :: k < 12 ==> k in v.entries
  {
  }

  lemma DocumentBound()
    ensures DictBound(12, 12, MEMBER, MEMBER) == Bound(9997, 769) && MAX_DEPTH > 0
  {
  }

  lemma AllMembers(v: Value)
    requires IsMap(v, 12)
    requires forall k: nat :: k < 12 ==> k in v.entries
    requires var m := v.entries;
             && Small(m[0], 1, MEMBER) && Small(m[1], 1, MEMBER) && Small(m[2], 1, MEMBER) && Small(m[3], 1, MEMBER)
             && Small(m[4], 1, MEMBER) && Small(m[5], 1, MEMBER) && Small(m[6], 1, MEMBER) && Small(m[7], 1, MEMBER)
             && Small(m[8], 1, MEMBER) && Small(m[9], 1, MEMBER) && Small(m[10], 1, MEMBER) && Small(m[11], 1, MEMBER)
    ensures EntriesSmall(v, 12, 1, 12, MEMBER, MEMBER)
  {
    hide Small;
  }

  /** Every manifest that passes the typed walk has a document: no limit of the encoder can refuse it. */
  lemma TypedEncodes(v: Value)
    requires TypeDocument(v).Ok?
    ensures EncodeDocument(v).Ok?
  {
    var d := TypeDocument(v).value;
    TypedBijection(v, d);
    SmallDocument(d);
    CborProofs.EncodeDocumentMeaning(v, Spell(v));
    hide TypeDocument, InRange, EncodeDocument, Fits, Spell, Count, ImagesValue, CompatibilityValue, TripleValue;
  }
}
