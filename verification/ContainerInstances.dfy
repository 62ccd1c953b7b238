/** Which manifests, images and signatures the assembler accepts, told without the encoder or the typed walk, and
 *  two-image bundles that show what the assembler does not see. */
module ContainerInstances {
  import opened Prelude
  import Utf8
  import opened Cbor
  import CborProofs
  import E = Envelope
  import M = Manifest
  import ME = ManifestEncoding
  import C = Container

  /** A manifest of fields in range, valid for the device, with images of its lengths and digests and a signature
      that verifies over its spelling. */
  ghost predicate Genuine(d: M.Document, blobs: seq<seq<byte>>, signature: seq<byte>, identity: M.Identity,
                          verify: E.Verify, hash: C.Hash)
  {
    && ME.InRange(d) && M.ValidFor(d, identity)
    && C.DigestsMatch(d.images, blobs, hash)
    && |signature| == E.SIGNATURE_BYTES && verify(Spell(M.DocumentValue(d)), signature).None?
  }

  /** The acceptable combinations are exactly the genuine ones, whatever the hash and the verifier. */
  lemma AcceptableMeaning(v: Value, blobs: seq<seq<byte>>, signature: seq<byte>, identity: M.Identity,
                          verify: E.Verify, hash: C.Hash)
    ensures C.Acceptable(v, blobs, signature, identity, verify, hash) <==>
              exists d :: v == M.DocumentValue(d) && Genuine(d, blobs, signature, identity, verify, hash)
  {
    if C.Acceptable(v, blobs, signature, identity, verify, hash) {
      hide EncodeDocument, M.TypeDocument, M.DocumentValue, M.ValidFor, C.DigestsMatch, ME.InRange, Spell;
      var d := M.TypeDocument(v).value;
      ME.TypedBijection(v, d);
      CborProofs.EncodeDocumentMeaning(v, EncodeDocument(v).value);
      assert v == M.DocumentValue(d) && Genuine(d, blobs, signature, identity, verify, hash);
    }
    if d :| v == M.DocumentValue(d) && Genuine(d, blobs, signature, identity, verify, hash) {
      GenuineAcceptable(d, blobs, signature, identity, verify, hash);
    }
  }

  lemma GenuineAcceptable(d: M.Document, blobs: seq<seq<byte>>, signature: seq<byte>, identity: M.Identity,
                          verify: E.Verify, hash: C.Hash)
    requires Genuine(d, blobs, signature, identity, verify, hash)
    ensures C.Acceptable(M.DocumentValue(d), blobs, signature, identity, verify, hash)
  {
    hide EncodeDocument, M.TypeDocument, M.DocumentValue, M.ValidFor, C.DigestsMatch, ME.InRange, Spell;
    var v := M.DocumentValue(d);
    ME.TypedBijection(v, d);
    ME.TypedEncodes(v);
    CborProofs.EncodeDocumentMeaning(v, EncodeDocument(v).value);
  }

  /** Every genuine combination is assembled, into the container of its spelling, and that container is accepted. */
  lemma GenuineAssembles(d: M.Document, blobs: seq<seq<byte>>, signature: seq<byte>, identity: M.Identity,
                         verify: E.Verify, hash: C.Hash)
    requires Genuine(d, blobs, signature, identity, verify, hash)
    ensures var v := M.DocumentValue(d);
            var data := E.Container(Spell(v), signature, blobs);
            && C.AssembleContainerSpec(v, blobs, signature, identity, verify, hash) == Ok(data)
            && C.CheckContainerSpec(data, identity, verify, hash).Ok?
            && C.CheckContainerSpec(data, identity, verify, hash).value.document == d
  {
    var v := M.DocumentValue(d);
    hide *;
    GenuineAcceptable(d, blobs, signature, identity, verify, hash);
    GenuineParts(d, blobs, signature, identity, verify, hash);
    C.AssembledIs(v, blobs, signature, identity, verify, hash);
    C.CheckAcceptsContainer(v, blobs, signature, identity, verify, hash);
  }

  lemma GenuineParts(d: M.Document, blobs: seq<seq<byte>>, signature: seq<byte>, identity: M.Identity,
                     verify: E.Verify, hash: C.Hash)
    requires Genuine(d, blobs, signature, identity, verify, hash)
    ensures M.TypeDocument(M.DocumentValue(d)) == Ok(d)
    ensures EncodeDocument(M.DocumentValue(d)) == Ok(Spell(M.DocumentValue(d)))
  {
    hide EncodeDocument, M.TypeDocument, M.DocumentValue, M.ValidFor, C.DigestsMatch, ME.InRange, Spell;
    var v := M.DocumentValue(d);
    ME.TypedBijection(v, d);
    ME.TypedEncodes(v);
    CborProofs.EncodeDocumentMeaning(v, EncodeDocument(v).value);
  }

  // ---------------------------------------------------------------- a bundle with two images

  const LETTER: seq<Utf8.codepoint> := [0x41]
  const DEVICE := M.Identity(1, LETTER, LETTER, 0, 0)
  const BYTE: seq<byte> := [1]
  const UNIT: seq<byte> := seq(E.IMAGE_ALIGNMENT, _ => 1)

  /** The manifest of two images, one for each target of the first role. */
  function Dual(first: seq<byte>, second: seq<byte>, hash: C.Hash): M.Document {
    M.Document(
      Zeros(16), 1, LETTER, LETTER, LETTER, 0, 0,
      [M.Image(1, |first|, hash(first), LETTER, 0, 1, 0), M.Image(2, |second|, hash(second), LETTER, 0, 2, 0)],
      M.Compatibility(M.Range(0, 0), M.Range(0, 0), M.Range(0, 0), [(0, 0)]), (0, 0, 0), (0, 0, 0))
  }

  predicate Sized(first: seq<byte>, second: seq<byte>) {
    1 <= |first| <= M.ImageLimit(1) && 1 <= |second| <= M.ImageLimit(2)
  }

  lemma DualInRange(first: seq<byte>, second: seq<byte>, hash: C.Hash)
    requires Sized(first, second) && |hash(first)| == |hash(second)| == 32
    ensures ME.InRange(Dual(first, second, hash))
  {
    assert ME.Printable(LETTER);
    hide ME.Printable;
  }

  lemma DualValid(first: seq<byte>, second: seq<byte>, hash: C.Hash)
    requires Sized(first, second)
    ensures M.ValidFor(Dual(first, second, hash), DEVICE)
  {
    var d := Dual(first, second, hash);
    assert M.Targets(d.images) == [1, 2];
  }

  lemma DualDigests(first: seq<byte>, second: seq<byte>, hash: C.Hash)
    ensures C.DigestsMatch(Dual(first, second, hash).images, [first, second], hash)
  {
  }

  lemma DualAcceptable(first: seq<byte>, second: seq<byte>, signature: seq<byte>, verify: E.Verify, hash: C.Hash)
    requires Sized(first, second) && |hash(first)| == |hash(second)| == 32
    requires |signature| == E.SIGNATURE_BYTES
    requires verify(Spell(M.DocumentValue(Dual(first, second, hash))), signature).None?
    ensures C.Acceptable(M.DocumentValue(Dual(first, second, hash)), [first, second], signature, DEVICE, verify, hash)
  {
    DualInRange(first, second, hash);
    DualValid(first, second, hash);
    DualDigests(first, second, hash);
    hide Dual, ME.InRange, M.ValidFor, C.DigestsMatch, Spell, M.DocumentValue, C.Acceptable, Sized, DEVICE;
    GenuineAcceptable(Dual(first, second, hash), [first, second], signature, DEVICE, verify, hash);
  }

  lemma Sizes()
    ensures BYTE != [] && |BYTE| == 1 && UNIT != [] && |UNIT| == E.IMAGE_ALIGNMENT && |UNIT + UNIT| == 2 * E.IMAGE_ALIGNMENT
    ensures Sized(BYTE, BYTE) && Sized(UNIT + UNIT, BYTE)
    ensures 2 * E.IMAGE_ALIGNMENT < E.MAX_IMAGE_BYTES && E.ImageOffset(2) == E.ImageOffset(1)
  {
  }

  /** For every hash of 32 bytes and every verifying signature there is a bundle that assembles both from the images
      it describes and from images whose first has a byte too many, into the same bytes. */
  lemma PaddingHidesByte(signature: seq<byte>, verify: E.Verify, hash: C.Hash)
    requires |hash(BYTE)| == 32 && |signature| == E.SIGNATURE_BYTES
    requires verify(Spell(M.DocumentValue(Dual(BYTE, BYTE, hash))), signature).None?
    ensures var v := M.DocumentValue(Dual(BYTE, BYTE, hash));
            && C.AssembleContainerSpec(v, [BYTE, BYTE], signature, DEVICE, verify, hash).Ok?
            && C.AssembleContainerSpec(v, [BYTE, BYTE], signature, DEVICE, verify, hash)
               == C.AssembleContainerSpec(v, [BYTE + Zeros(1), BYTE], signature, DEVICE, verify, hash)
  {
    Sizes();
    hide *;
    DualAcceptable(BYTE, BYTE, signature, verify, hash);
    C.PaddingAbsorbsZeros(M.DocumentValue(Dual(BYTE, BYTE, hash)), BYTE, BYTE, 1, signature, DEVICE, verify, hash);
  }

  /** Likewise there is one that assembles both from the images it describes and from images between which a whole
      unit of non-zero bytes has changed sides. */
  lemma BoundaryHidesUnit(signature: seq<byte>, verify: E.Verify, hash: C.Hash)
    requires |hash(UNIT + UNIT)| == |hash(BYTE)| == 32 && |signature| == E.SIGNATURE_BYTES
    requires verify(Spell(M.DocumentValue(Dual(UNIT + UNIT, BYTE, hash))), signature).None?
    ensures var v := M.DocumentValue(Dual(UNIT + UNIT, BYTE, hash));
            && C.AssembleContainerSpec(v, [UNIT + UNIT, BYTE], signature, DEVICE, verify, hash).Ok?
            && C.AssembleContainerSpec(v, [UNIT + UNIT, BYTE], signature, DEVICE, verify, hash)
               == C.AssembleContainerSpec(v, [UNIT, UNIT + BYTE], signature, DEVICE, verify, hash)
  {
    Sizes();
    hide *;
    DualAcceptable(UNIT + UNIT, BYTE, signature, verify, hash);
    C.BoundaryMoves(M.DocumentValue(Dual(UNIT + UNIT, BYTE, hash)), UNIT, UNIT, BYTE, signature, DEVICE, verify, hash);
  }
}
