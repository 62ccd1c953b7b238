/** The outer container of tools/ota/envelope.py: a 24-byte header, the manifest, a signature, and
 *  images padded to 64 KiB boundaries. */
module Envelope {
  import opened Prelude
  import opened Cbor
  import CborMachine
  import CborProofs

  const MAGIC: seq<byte> := [0x43, 0x56, 0x4F, 0x54, 0x41, 0x30, 0x30, 0x32]
  const FORMAT_VERSION: nat := 2
  const HEADER_SIZE: nat := 24
  const IMAGE_ALIGNMENT: nat := 65536
  const SIGNATURE_BYTES: nat := 64
  const MAX_IMAGES: nat := 3
  const MAX_IMAGE_BYTES: nat := 4 * 1024 * 1024
  const MAX_PREFIX: nat := HEADER_SIZE + MAX_BYTES + SIGNATURE_BYTES
  const MAX_BUNDLE: nat := MAX_IMAGES * (MAX_IMAGE_BYTES + IMAGE_ALIGNMENT) + MAX_PREFIX

  /** The signature check is a parameter: it accepts, or raises with a status. */
  type Verify = (seq<byte>, seq<byte>) -> Option<Status>

  // ---------------------------------------------------------------- header

  datatype Header = Header(magic: seq<byte>, version: nat, headerSize: nat, manifestSize: nat,
                           signatureSize: nat, count: nat, total: nat)

  ghost predicate Packable(h: Header) {
    && |h.magic| == 8
    && h.version < 65536 && h.headerSize < 65536 && h.signatureSize < 65536 && h.count < 65536
    && h.manifestSize < 4294967296 && h.total < 4294967296
  }

  /** `struct.Struct("<8sHHIHHI").pack`. */
  function Pack(h: Header): seq<byte> {
    h.magic + LittleEndian(h.version, 2) + LittleEndian(h.headerSize, 2) + LittleEndian(h.manifestSize, 4)
    + LittleEndian(h.signatureSize, 2) + LittleEndian(h.count, 2) + LittleEndian(h.total, 4)
  }

  function Unpack(data: seq<byte>): Header
    requires |data| >= HEADER_SIZE
  {
    Header(data[..8], FromLittleEndian(data[8..10]), FromLittleEndian(data[10..12]), FromLittleEndian(data[12..16]),
           FromLittleEndian(data[16..18]), FromLittleEndian(data[18..20]), FromLittleEndian(data[20..24]))
  }

  lemma FieldWidths()
    ensures Pow256(2) == 65536 && Pow256(4) == 4294967296
  {
    CborProofs.Pow256Values();
  }

  /** Packing and unpacking a header are inverse. */
  lemma HeaderRoundTrip(h: Header, data: seq<byte>)
    ensures Packable(h) ==> |Pack(h)| == HEADER_SIZE
    ensures |data| >= HEADER_SIZE ==> Packable(Unpack(data))
    ensures |data| >= HEADER_SIZE && Packable(h) ==> (Unpack(data) == h <==> Pack(h) == data[..HEADER_SIZE])
  {
    FieldWidths();
    if |data| >= HEADER_SIZE {
      UnpackRange(data);
      PackUnpack(data);
      if Packable(h) && Pack(h) == data[..HEADER_SIZE] {
        UnpackPack(h, data);
      }
    }
  }

  /** The 24 bytes of a header, one by one. */
  lemma HeaderBytes(manifestSize: nat, count: nat, total: nat)
    requires manifestSize < 0x1_0000_0000 && count < 0x100 && total < 0x1_0000_0000
    ensures Pack(HeaderFor(manifestSize, count, total))
         == [0x43, 0x56, 0x4F, 0x54, 0x41, 0x30, 0x30, 0x32, 2, 0, 24, 0,
             manifestSize % 0x100, manifestSize / 0x100 % 0x100, manifestSize / 0x1_0000 % 0x100, manifestSize / 0x100_0000,
             64, 0, count, 0,
             total % 0x100, total / 0x100 % 0x100, total / 0x1_0000 % 0x100, total / 0x100_0000]
  {
    LittleBytes(2);
    LittleBytes(24);
    LittleBytes(64);
    LittleBytes(count);
    LittleBytes(manifestSize);
    LittleBytes(total);
    hide LittleEndian;
  }

  lemma LittleBytes(n: nat)
    requires n < 0x1_0000_0000
    ensures n < 0x100 ==> LittleEndian(n, 2) == [n, 0]
    ensures LittleEndian(n, 4) == [n % 0x100, n / 0x100 % 0x100, n / 0x1_0000 % 0x100, n / 0x100_0000]
  {
    var a := n / 256;
    var b := a / 256;
    var c := b / 256;
    assert b == n / 0x1_0000 && c == n / 0x100_0000 && c < 256;
    LittleSteps(n, a, b, c);
    hide LittleEndian;
  }

  lemma LittleSteps(n: nat, a: nat, b: nat, c: nat)
    requires a == n / 256 && b == a / 256 && c == b / 256 && c < 256
    ensures n < 256 ==> LittleEndian(n, 2) == [n, 0]
    ensures LittleEndian(n, 4) == [n % 256, a % 256, b % 256, c]
  {
    assert LittleEndian(c, 1) == [c % 256] + LittleEndian(c / 256, 0);
    assert LittleEndian(b, 2) == [b % 256] + LittleEndian(c, 1);
    assert LittleEndian(a, 3) == [a % 256] + LittleEndian(b, 2);
    assert LittleEndian(n, 4) == [n % 256] + LittleEndian(a, 3);
    if n < 256 {
      assert LittleEndian(n, 2) == [n % 256] + LittleEndian(0, 1);
      assert LittleEndian(0, 1) == [0] + LittleEndian(0, 0);
    }
  }

  lemma UnpackRange(data: seq<byte>)
    requires |data| >= HEADER_SIZE
    ensures Packable(Unpack(data))
  {
    FieldWidths();
    FromLittleEndianRoundTrip(data[8..10]);
    FromLittleEndianRoundTrip(data[10..12]);
    FromLittleEndianRoundTrip(data[12..16]);
    FromLittleEndianRoundTrip(data[16..18]);
    FromLittleEndianRoundTrip(data[18..20]);
    FromLittleEndianRoundTrip(data[20..24]);
    hide FromLittleEndian, LittleEndian, Pow256;
  }

  lemma PackUnpack(data: seq<byte>)
    requires |data| >= HEADER_SIZE
    ensures Pack(Unpack(data)) == data[..HEADER_SIZE]
  {
    FromLittleEndianRoundTrip(data[8..10]);
    FromLittleEndianRoundTrip(data[10..12]);
    FromLittleEndianRoundTrip(data[12..16]);
    FromLittleEndianRoundTrip(data[16..18]);
    FromLittleEndianRoundTrip(data[18..20]);
    FromLittleEndianRoundTrip(data[20..24]);
    hide FromLittleEndian, LittleEndian, Pow256;
    assert data[..HEADER_SIZE] == data[..8] + data[8..10] + data[10..12] + data[12..16] + data[16..18]
                                  + data[18..20] + data[20..24];
  }

  lemma UnpackPack(h: Header, data: seq<byte>)
    requires Packable(h) && |data| >= HEADER_SIZE && Pack(h) == data[..HEADER_SIZE]
    ensures Unpack(data) == h
  {
    FieldWidths();
    LittleEndianRoundTrip(h.version, 2);
    LittleEndianRoundTrip(h.headerSize, 2);
    LittleEndianRoundTrip(h.manifestSize, 4);
    LittleEndianRoundTrip(h.signatureSize, 2);
    LittleEndianRoundTrip(h.count, 2);
    LittleEndianRoundTrip(h.total, 4);
    hide FromLittleEndian, LittleEndian, Pow256;
    FieldCuts(h.magic, LittleEndian(h.version, 2), LittleEndian(h.headerSize, 2), LittleEndian(h.manifestSize, 4),
              LittleEndian(h.signatureSize, 2), LittleEndian(h.count, 2), LittleEndian(h.total, 4), data);
  }

  lemma FieldCuts(a: seq<byte>, b: seq<byte>, c: seq<byte>, d: seq<byte>, e: seq<byte>, f: seq<byte>, g: seq<byte>,
                  data: seq<byte>)
    requires |a| == 8 && |b| == 2 && |c| == 2 && |d| == 4 && |e| == 2 && |f| == 2 && |g| == 4
    requires |data| >= 24 && data[..24] == a + b + c + d + e + f + g
    ensures data[..8] == a && data[8..10] == b && data[10..12] == c && data[12..16] == d
    ensures data[16..18] == e && data[18..20] == f && data[20..24] == g
  {
    var s := data[..24];
    assert data[..8] == s[..8] && data[8..10] == s[8..10] && data[10..12] == s[10..12] && data[12..16] == s[12..16];
    assert data[16..18] == s[16..18] && data[18..20] == s[18..20] && data[20..24] == s[20..24];
  }

  // ---------------------------------------------------------------- placement of images

  function ImageOffset(offset: nat): (r: nat)
    ensures offset <= r < offset + IMAGE_ALIGNMENT && r % IMAGE_ALIGNMENT == 0
  {
    (offset + IMAGE_ALIGNMENT - 1) / IMAGE_ALIGNMENT * IMAGE_ALIGNMENT
  }

  /** Where images of these lengths start when the first free byte is `start`. */
  function Offsets(start: nat, lengths: seq<nat>): (offsets: seq<nat>)
    ensures |offsets| == |lengths|
    decreases |lengths|
  {
    if lengths == [] then []
    else [ImageOffset(start)] + Offsets(ImageOffset(start) + lengths[0], lengths[1..])
  }

  /** The first free byte behind them. */
  function Total(start: nat, lengths: seq<nat>): (total: nat)
    ensures total >= start
    decreases |lengths|
  {
    if lengths == [] then start else Total(ImageOffset(start) + lengths[0], lengths[1..])
  }

  /** Image ranges are aligned to 64 KiB, start behind `start`, follow one another without overlap, and leave
      less than one alignment unit between neighbours; the last one ends at the total. */
  lemma {:induction false} OffsetsTile(start: nat, lengths: seq<nat>)
    ensures var offsets := Offsets(start, lengths);
            && (forall i :: 0 <= i < |lengths| ==> offsets[i] % 65536 == 0)
            && (forall i :: 0 <= i < |lengths| ==>
                  var previous := if i == 0 then start else offsets[i - 1] + lengths[i - 1];
                  previous <= offsets[i] < previous + 65536)
            && Total(start, lengths)
               == if lengths == [] then start else offsets[|lengths| - 1] + lengths[|lengths| - 1]
    decreases |lengths|
  {
    if lengths != [] {
      var first, rest := ImageOffset(start), lengths[1..];
      OffsetsTile(first + lengths[0], rest);
      hide ImageOffset;
      var offsets, later := Offsets(start, lengths), Offsets(first + lengths[0], rest);
      assert offsets == [first] + later;
      hide Offsets;
      forall i | 0 < i < |lengths| ensures offsets[i] == later[i - 1] && lengths[i] == rest[i - 1] {
      }
    }
  }

  lemma {:induction false} TotalBound(start: nat, lengths: seq<nat>, most: nat)
    requires forall i :: 0 <= i < |lengths| ==> lengths[i] <= most
    ensures Total(start, lengths) <= start + |lengths| * (most + IMAGE_ALIGNMENT)
    decreases |lengths|
  {
    if lengths != [] {
      TotalBound(ImageOffset(start) + lengths[0], lengths[1..], most);
      assert |lengths| * (most + IMAGE_ALIGNMENT) == (|lengths| - 1) * (most + IMAGE_ALIGNMENT) + most + IMAGE_ALIGNMENT;
    }
  }

  /** One to three images within the image limit never exceed the bundle limit: the assembler's
      last size test cannot fire. */
  lemma BundleFits(start: nat, lengths: seq<nat>)
    requires start <= MAX_PREFIX && |lengths| <= MAX_IMAGES
    requires forall i :: 0 <= i < |lengths| ==> lengths[i] <= MAX_IMAGE_BYTES
    ensures Total(start, lengths) <= MAX_BUNDLE
  {
    TotalBound(start, lengths, MAX_IMAGE_BYTES);
    assert |lengths| == 0 || |lengths| == 1 || |lengths| == 2 || |lengths| == 3;
  }

  function Lengths(images: seq<seq<byte>>): (lengths: seq<nat>)
    ensures |lengths| == |images|
    ensures forall i :: 0 <= i < |images| ==> lengths[i] == |images[i]|
  {
    seq(|images|, i requires 0 <= i < |images| => |images[i]|)
  }

  /** Each image behind its zero padding. */
  function Body(start: nat, images: seq<seq<byte>>): seq<byte>
    decreases |images|
  {
    if images == [] then []
    else Zeros(ImageOffset(start) - start) + images[0] + Body(ImageOffset(start) + |images[0]|, images[1..])
  }

  lemma {:induction false} BodyLength(start: nat, images: seq<seq<byte>>)
    ensures |Body(start, images)| == Total(start, Lengths(images)) - start
    decreases |images|
  {
    if images != [] {
      BodyLength(ImageOffset(start) + |images[0]|, images[1..]);
      assert Lengths(images)[1..] == Lengths(images[1..]);
    }
  }

  // ---------------------------------------------------------------- assembling

  predicate ImagesWellSized(images: seq<seq<byte>>) {
    && 1 <= |images| <= MAX_IMAGES
    && forall i :: 0 <= i < |images| ==> 1 <= |images[i]| <= MAX_IMAGE_BYTES
  }

  function HeaderFor(manifestSize: nat, count: nat, total: nat): Header {
    Header(MAGIC, FORMAT_VERSION, HEADER_SIZE, manifestSize, SIGNATURE_BYTES, count, total)
  }

  function PrefixSize(manifestSize: nat): nat {
    HEADER_SIZE + manifestSize + SIGNATURE_BYTES
  }

  /** The bytes of a container with this manifest document, signature and images. */
  function Container(manifest: seq<byte>, signature: seq<byte>, images: seq<seq<byte>>): seq<byte> {
    var start := PrefixSize(|manifest|);
    Pack(HeaderFor(|manifest|, |images|, Total(start, Lengths(images)))) + manifest + signature + Body(start, images)
  }

  function AssembleSpec(manifest: Value, images: seq<seq<byte>>, sign: seq<byte> -> seq<byte>)
    : Result<seq<byte>, Status>
  {
    if !(1 <= |images| <= MAX_IMAGES) then Err(Malformed)
    else if exists i :: 0 <= i < |images| && images[i] == [] then Err(Malformed)
    else if exists i :: 0 <= i < |images| && |images[i]| > MAX_IMAGE_BYTES then Err(Oversize)
    else
      var document :- EncodeDocument(manifest);
      if Total(PrefixSize(|document|), Lengths(images)) > MAX_BUNDLE then Err(Oversize)
      else if |sign(document)| != SIGNATURE_BYTES then Err(Malformed)
      else Ok(Container(document, sign(document), images))
  }

  method Place(start: nat, images: seq<seq<byte>>) returns (total: nat, body: seq<byte>)
    ensures total == Total(start, Lengths(images))
    ensures body == Body(start, images)
  {
    hide Total, Body, ImageOffset, Lengths;
    total, body := start, [];
    assert images[0..] == images;
    for i := 0 to |images|
      invariant Total(start, Lengths(images)) == Total(total, Lengths(images[i..]))
      invariant Body(start, images) == body + Body(total, images[i..])
    {
      PlaceStep(total, images[i..]);
      assert images[i..][1..] == images[i + 1..];
      var aligned := ImageOffset(total);
      body := body + (Zeros(aligned - total) + images[i]);
      total := aligned + |images[i]|;
    }
    NothingPlaced(total, images[|images|..]);
    assert body + [] == body;
  }

  lemma NothingPlaced(start: nat, images: seq<seq<byte>>)
    requires images == []
    ensures Total(start, Lengths(images)) == start && Body(start, images) == []
  {
  }

  lemma PlaceStep(start: nat, images: seq<seq<byte>>)
    requires images != []
    ensures var next := ImageOffset(start) + |images[0]|;
            && Total(start, Lengths(images)) == Total(next, Lengths(images[1..]))
            && Body(start, images) == (Zeros(ImageOffset(start) - start) + images[0]) + Body(next, images[1..])
  {
    assert Lengths(images)[1..] == Lengths(images[1..]);
  }

  method Assemble(manifest: Value, images: seq<seq<byte>>, sign: seq<byte> -> seq<byte>)
    returns (r: Result<seq<byte>, Status>)
    ensures r == AssembleSpec(manifest, images, sign)
  {
    if !(1 <= |images| <= MAX_IMAGES) {
      return Err(Malformed);
    }
    if exists i :: 0 <= i < |images| && images[i] == [] {
      return Err(Malformed);
    }
    if exists i :: 0 <= i < |images| && |images[i]| > MAX_IMAGE_BYTES {
      return Err(Oversize);
    }
    var document :- CborMachine.Encode(manifest);
    hide EncodeDocument, Pack;
    var total, body := Place(PrefixSize(|document|), images);
    if total > MAX_BUNDLE {
      return Err(Oversize);
    }
    var signature := sign(document);
    if |signature| != SIGNATURE_BYTES {
      return Err(Malformed);
    }
    r := Ok(Pack(HeaderFor(|document|, |images|, total)) + document + signature + body);
  }

  /** The assembler accepts exactly one to three non-empty images within the limit, an encodable
      manifest and a signer of 64-byte signatures. */
  lemma AssembleMeaning(manifest: Value, images: seq<seq<byte>>, sign: seq<byte> -> seq<byte>)
    ensures AssembleSpec(manifest, images, sign).Ok? <==>
              && ImagesWellSized(images)
              && EncodeDocument(manifest).Ok?
              && |sign(EncodeDocument(manifest).value)| == SIGNATURE_BYTES
    ensures AssembleSpec(manifest, images, sign).Ok? ==>
              AssembleSpec(manifest, images, sign).value
                == Container(EncodeDocument(manifest).value, sign(EncodeDocument(manifest).value), images)
  {
    if ImagesWellSized(images) && EncodeDocument(manifest).Ok? {
      var document := EncodeDocument(manifest).value;
      DocumentFits(manifest);
      hide EncodeDocument;
      BundleFits(PrefixSize(|document|), Lengths(images));
    }
  }

  lemma DocumentFits(manifest: Value)
    requires EncodeDocument(manifest).Ok?
    ensures 1 <= |EncodeDocument(manifest).value| <= MAX_BYTES
  {
    CborProofs.EncodeDocumentMeaning(manifest, EncodeDocument(manifest).value);
    hide EncodeDocument;
    CborProofs.SpellNonEmpty(manifest, 0);
  }

  // ---------------------------------------------------------------- the prefix

  function PrefixLength(data: seq<byte>): Result<nat, Status> {
    if |data| < HEADER_SIZE then Err(Incomplete)
    else
      var size := Unpack(data).manifestSize;
      if size > MAX_BYTES then Err(Oversize) else Ok(PrefixSize(size))
  }

  function CheckPrefix(data: seq<byte>, verify: Verify): Result<Value, Status> {
    if |data| > MAX_PREFIX then Err(Oversize)
    else if |data| < HEADER_SIZE then Err(Incomplete)
    else
      var h := Unpack(data);
      if h.magic != MAGIC then Err(Malformed)
      else if h.version != FORMAT_VERSION then Err(UnsupportedVersion)
      else if h.headerSize != HEADER_SIZE || h.signatureSize != SIGNATURE_BYTES || h.manifestSize == 0 then
        Err(Malformed)
      else if h.manifestSize > MAX_BYTES then Err(Oversize)
      else
        var expected := PrefixSize(h.manifestSize);
        if |data| != expected then Err(if |data| < expected then Incomplete else Malformed)
        else if !(1 <= h.count <= MAX_IMAGES) || h.total < ImageOffset(expected) + h.count then Err(Malformed)
        else if h.total > MAX_BUNDLE then Err(Oversize)
        else
          var document := data[HEADER_SIZE..HEADER_SIZE + h.manifestSize];
          var manifest :- DecodeDocument(document);
          var verdict := verify(document, data[|data| - SIGNATURE_BYTES..]);
          if verdict.Some? then Err(verdict.value) else Ok(manifest)
  }

  /** A prefix is accepted exactly when it is the prefix some manifest and signature are packed into
      and the signature verifies; the header can claim any total in the admissible range. */
  lemma CheckPrefixMeaning(data: seq<byte>, verify: Verify, manifest: Value)
    ensures CheckPrefix(data, verify) == Ok(manifest) <==>
              exists document: seq<byte>, signature: seq<byte>, count: nat, total: nat ::
                PrefixOf(data, verify, manifest, document, signature, count, total)
  {
    hide Pack, Unpack, DecodeDocument, EncodeDocument;
    if CheckPrefix(data, verify) == Ok(manifest) {
      var h := Unpack(data);
      var document := data[HEADER_SIZE..HEADER_SIZE + h.manifestSize];
      var signature := data[|data| - SIGNATURE_BYTES..];
      HeaderRoundTrip(h, data);
      CborProofs.DocumentBijection(manifest, document);
      assert data == data[..HEADER_SIZE] + document + signature;
      assert PrefixOf(data, verify, manifest, document, signature, h.count, h.total);
    }
    if document: seq<byte>, signature: seq<byte>, count: nat, total: nat
      :| PrefixOf(data, verify, manifest, document, signature, count, total)
    {
      PrefixAccepted(data, verify, manifest, document, signature, count, total);
    }
  }

  ghost predicate PrefixOf(data: seq<byte>, verify: Verify, manifest: Value, document: seq<byte>,
                           signature: seq<byte>, count: nat, total: nat)
  {
    && EncodeDocument(manifest) == Ok(document)
    && |signature| == SIGNATURE_BYTES
    && verify(document, signature).None?
    && 1 <= count <= MAX_IMAGES
    && ImageOffset(PrefixSize(|document|)) + count <= total <= MAX_BUNDLE
    && data == Pack(HeaderFor(|document|, count, total)) + document + signature
  }

  lemma PrefixAccepted(data: seq<byte>, verify: Verify, manifest: Value, document: seq<byte>,
                       signature: seq<byte>, count: nat, total: nat)
    requires PrefixOf(data, verify, manifest, document, signature, count, total)
    ensures |data| == PrefixSize(|document|) && Unpack(data) == HeaderFor(|document|, count, total)
    ensures CheckPrefix(data, verify) == Ok(manifest)
  {
    var h := HeaderFor(|document|, count, total);
    DocumentFits(manifest);
    CborProofs.DocumentBijection(manifest, document);
    hide Unpack, Pack, DecodeDocument, EncodeDocument;
    HeaderRoundTrip(h, data);
    assert data[..HEADER_SIZE] == Pack(h);
    assert data[HEADER_SIZE..HEADER_SIZE + |document|] == document;
    assert data[|data| - SIGNATURE_BYTES..] == signature;
  }
}
