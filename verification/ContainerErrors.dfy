/** Which status a refused container gets, and which the assembler raises: the first complaint, with every limit
 *  written out. */
module ContainerErrors {
  import opened Prelude
  import opened Cbor
  import opened Complaints
  import opened ManifestErrors
  import E = Envelope
  import M = Manifest
  import C = Container

  /** Padding and images from image `i` on, where the bytes up to `previous` are accounted for. */
  ghost function BodiesComplaint(data: seq<byte>, images: seq<M.Image>, previous: nat, hash: C.Hash): Option<Status>
    decreases |images|
  {
    if images == [] then None
    else
      var start := RoundUp(previous);
      var next := start + images[0].length;
      Then(When(exists p :: previous <= p < start && p < |data| && data[p] != 0, Malformed),
      Then(When(next <= |data| && hash(data[start..next]) != images[0].digest, AuthFailed),
           BodiesComplaint(data, images[1..], next, hash)))
  }

  /** The manifest with its header and signature, as far as it is there. */
  function PrefixPart(data: seq<byte>): seq<byte> {
    if |data| >= 24 && 88 + Word32(data, 12) <= |data| then data[..88 + Word32(data, 12)] else data
  }

  ghost function ContainerComplaint(data: seq<byte>, identity: M.Identity, verify: E.Verify, hash: C.Hash): Option<Status> {
    Then(When(|data| > 12795992, Oversize),
    Then(When(|data| < 24, Incomplete),
    Then(When(|data| >= 24 && Word32(data, 12) > 16384, Oversize),
    Then(Of(M.CheckManifestSpec(PrefixPart(data), identity, verify)),
         if M.CheckManifestSpec(PrefixPart(data), identity, verify).Err? then None
         else
           var c := M.CheckManifestSpec(PrefixPart(data), identity, verify).value;
           Then(When(|data| < c.total, Incomplete),
           Then(When(|data| > c.total, Malformed),
                BodiesComplaint(data, c.document.images, |PrefixPart(data)|, hash)))))))
  }

  lemma NonZero(data: seq<byte>, previous: nat, start: nat)
    requires previous <= start <= |data|
    ensures AllZero(data[previous..start]) <==> !exists p :: previous <= p < start && p < |data| && data[p] != 0
  {
    var s := data[previous..start];
    if p :| previous <= p < start && p < |data| && data[p] != 0 {
      assert s[p - previous] == data[p];
    }
    forall i | 0 <= i < |s| ensures s[i] == data[previous + i] {
    }
  }

  lemma {:induction false} BodiesComplain(data: seq<byte>, images: seq<M.Image>, previous: nat, hash: C.Hash)
    requires E.Total(previous, M.ImageLengths(images)) == |data|
    ensures C.InRange(data, images, E.Offsets(previous, M.ImageLengths(images)), previous)
    ensures C.CheckBodies(data, images, E.Offsets(previous, M.ImageLengths(images)), previous, hash)
         == BodiesComplaint(data, images, previous, hash)
    decreases |images|
  {
    hide AllZero, E.ImageOffset, RoundUp;
    C.PlacedInRange(data, images, previous);
    if images != [] {
      var start := E.ImageOffset(previous);
      var next := start + images[0].length;
      LengthsTail(images);
      RoundUpIs(previous);
      assert E.Offsets(previous, M.ImageLengths(images))[1..] == E.Offsets(next, M.ImageLengths(images[1..]));
      NonZero(data, previous, start);
      BodiesComplain(data, images[1..], next, hash);
      hide E.Total, M.ImageLengths;
    }
  }

  /** A container is refused for its first complaint. */
  lemma ContainerComplains(data: seq<byte>, identity: M.Identity, verify: E.Verify, hash: C.Hash)
    ensures Of(C.CheckContainerSpec(data, identity, verify, hash)) == ContainerComplaint(data, identity, verify, hash)
  {
    hide E.Unpack, Word32, E.Offsets, E.Total, M.CheckManifestSpec, BodiesComplaint, C.CheckBodies, C.InRange, M.ImageLengths,
      Short16;
    if |data| >= 24 {
      Unpacked(data);
    }
    var prefix := PrefixPart(data);
    var checked := M.CheckManifestSpec(prefix, identity, verify);
    if |data| >= 24 && checked.Ok? {
      C.CheckedPrefix(prefix, identity, verify);
      if |data| == checked.value.total {
        BodiesComplain(data, checked.value.document.images, |prefix|, hash);
      }
    }
  }

  // ---------------------------------------------------------------- assembling

  /** The test of the bundle size never complains. */
  function AssembleComplaint(manifest: Value, images: seq<seq<byte>>, sign: seq<byte> -> seq<byte>): Option<Status> {
    Then(When(|images| < 1 || |images| > 3, Malformed),
    Then(When(exists i :: 0 <= i < |images| && |images[i]| == 0, Malformed),
    Then(When(exists i :: 0 <= i < |images| && |images[i]| > 4194304, Oversize),
    Then(Of(EncodeDocument(manifest)),
         if EncodeDocument(manifest).Err? then None
         else When(|sign(EncodeDocument(manifest).value)| != 64, Malformed)))))
  }

  lemma AssembleComplains(manifest: Value, images: seq<seq<byte>>, sign: seq<byte> -> seq<byte>)
    ensures Of(E.AssembleSpec(manifest, images, sign)) == AssembleComplaint(manifest, images, sign)
  {
    if EncodeDocument(manifest).Ok? && E.ImagesWellSized(images) {
      E.DocumentFits(manifest);
      E.BundleFits(E.PrefixSize(|EncodeDocument(manifest).value|), E.Lengths(images));
    }
    hide EncodeDocument, E.Total;
  }

  /** The assembler refuses for its first complaint, the last of which is that of the check of its output. */
  lemma AssembleContainerComplains(v: Value, images: seq<seq<byte>>, signature: seq<byte>, identity: M.Identity,
                                   verify: E.Verify, hash: C.Hash)
    ensures Of(C.AssembleContainerSpec(v, images, signature, identity, verify, hash))
         == Then(When(|signature| != 64, Malformed),
            Then(AssembleComplaint(v, images, _ => signature),
                 if E.AssembleSpec(v, images, _ => signature).Err? then None
                 else ContainerComplaint(E.AssembleSpec(v, images, _ => signature).value, identity, verify, hash)))
  {
    var sign: seq<byte> -> seq<byte> := _ => signature;
    AssembleComplains(v, images, sign);
    if E.AssembleSpec(v, images, sign).Ok? {
      ContainerComplains(E.AssembleSpec(v, images, sign).value, identity, verify, hash);
    }
    hide E.AssembleSpec, C.CheckContainerSpec, AssembleComplaint, ContainerComplaint;
  }
}
