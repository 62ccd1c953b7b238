/** Assembling and checking whole containers, after tools/ota/container.py. The hash and the signature
 *  check are parameters. */
module Container {
  import opened Prelude
  import opened Cbor
  import CborProofs
  import E = Envelope
  import M = Manifest

  type Hash = seq<byte> -> seq<byte>

  /** The walk over padding and images. */
  function CheckBodies(data: seq<byte>, images: seq<M.Image>, offsets: seq<nat>, previous: nat, hash: Hash): Option<Status>
    requires |images| == |offsets| && InRange(data, images, offsets, previous)
    decreases |images|
  {
    if images == [] then None
    else if !AllZero(data[previous..offsets[0]]) then Some(Malformed)
    else
      var next := offsets[0] + images[0].length;
      if hash(data[offsets[0]..next]) != images[0].digest then Some(AuthFailed)
      else CheckBodies(data, images[1..], offsets[1..], next, hash)
  }

  /** The offsets do not run backwards or out of the data. */
  ghost predicate InRange(data: seq<byte>, images: seq<M.Image>, offsets: seq<nat>, previous: nat)
    requires |images| == |offsets|
    decreases |images|
  {
    if images == [] then previous <= |data|
    else
      && previous <= offsets[0] <= offsets[0] + images[0].length <= |data|
      && InRange(data, images[1..], offsets[1..], offsets[0] + images[0].length)
  }

  lemma {:induction false} PlacedInRange(data: seq<byte>, images: seq<M.Image>, previous: nat)
    requires E.Total(previous, M.ImageLengths(images)) == |data|
    ensures InRange(data, images, E.Offsets(previous, M.ImageLengths(images)), previous)
    decreases |images|
  {
    if images != [] {
      assert M.ImageLengths(images)[1..] == M.ImageLengths(images[1..]);
      PlacedInRange(data, images[1..], E.ImageOffset(previous) + images[0].length);
    }
  }

  lemma CheckedPrefix(data: seq<byte>, identity: M.Identity, verify: E.Verify)
    requires M.CheckManifestSpec(data, identity, verify).Ok?
    ensures exists v, document, signature, count, total :: E.PrefixOf(data, verify, v, document, signature, count, total)
    ensures |M.CheckManifestSpec(data, identity, verify).value.document.images|
         == |M.CheckManifestSpec(data, identity, verify).value.offsets|
    ensures var c := M.CheckManifestSpec(data, identity, verify).value;
            && c.offsets == E.Offsets(|data|, M.ImageLengths(c.document.images))
            && c.total == E.Total(|data|, M.ImageLengths(c.document.images))
  {
    var v := E.CheckPrefix(data, verify).value;
    E.CheckPrefixMeaning(data, verify, v);
    var document: seq<byte>, signature: seq<byte>, count: nat, total: nat
      :| E.PrefixOf(data, verify, v, document, signature, count, total);
    M.CheckManifestAccepts(data, identity, verify, v, document, signature, count, total);
  }

  function CheckContainerSpec(data: seq<byte>, identity: M.Identity, verify: E.Verify, hash: Hash)
    : Result<M.Checked, Status>
  {
    if |data| > E.MAX_BUNDLE then Err(Oversize)
    else
      var size :- E.PrefixLength(data);
      var prefix := if size <= |data| then data[..size] else data;
      var checked :- M.CheckManifestSpec(prefix, identity, verify);
      if |data| != checked.total then Err(if |data| < checked.total then Incomplete else Malformed)
      else
        CheckedPrefix(prefix, identity, verify);
        PlacedInRange(data, checked.document.images, |prefix|);
        var failed := CheckBodies(data, checked.document.images, checked.offsets, |prefix|, hash);
        if failed.Some? then Err(failed.value) else Ok(checked)
  }

  method CheckContainer(data: seq<byte>, identity: M.Identity, verify: E.Verify, hash: Hash)
    returns (r: Result<M.Checked, Status>)
    ensures r == CheckContainerSpec(data, identity, verify, hash)
  {
    if |data| > E.MAX_BUNDLE {
      return Err(Oversize);
    }
    var size :- E.PrefixLength(data);
    var prefix := if size <= |data| then data[..size] else data;
    var checked :- M.CheckManifest(prefix, identity, verify);
    if |data| != checked.total {
      return Err(if |data| < checked.total then Incomplete else Malformed);
    }
    hide CheckBodies, M.CheckManifestSpec, E.PrefixLength, E.Offsets, E.Total;
    CheckedPrefix(prefix, identity, verify);
    PlacedInRange(data, checked.document.images, |prefix|);
    var failed := BodiesChecked(data, checked.document.images, checked.offsets, |prefix|, hash);
    r := if failed.Some? then Err(failed.value) else Ok(checked);
  }

  method BodiesChecked(data: seq<byte>, images: seq<M.Image>, offsets: seq<nat>, start: nat, hash: Hash)
    returns (failed: Option<Status>)
    requires |images| == |offsets| && InRange(data, images, offsets, start)
    ensures failed == CheckBodies(data, images, offsets, start, hash)
  {
    var previous: nat := start;
    assert images[0..] == images && offsets[0..] == offsets;
    for i := 0 to |images|
      invariant InRange(data, images[i..], offsets[i..], previous)
      invariant CheckBodies(data, images, offsets, start, hash)
             == CheckBodies(data, images[i..], offsets[i..], previous, hash)
    {
      assert images[i..][1..] == images[i + 1..] && offsets[i..][1..] == offsets[i + 1..];
      hide AllZero;
      if !AllZero(data[previous..offsets[i]]) {
        return Some(Malformed);
      }
      previous := offsets[i] + images[i].length;
      if hash(data[offsets[i]..previous]) != images[i].digest {
        return Some(AuthFailed);
      }
    }
    failed := None;
  }

  function AssembleContainerSpec(manifest: Value, images: seq<seq<byte>>, signature: seq<byte>,
                                 identity: M.Identity, verify: E.Verify, hash: Hash): Result<seq<byte>, Status>
  {
    if |signature| != E.SIGNATURE_BYTES then Err(Malformed)
    else
      var data :- E.AssembleSpec(manifest, images, _ => signature);
      var _ :- CheckContainerSpec(data, identity, verify, hash);
      Ok(data)
  }

  method AssembleContainer(manifest: Value, images: seq<seq<byte>>, signature: seq<byte>,
                           identity: M.Identity, verify: E.Verify, hash: Hash) returns (r: Result<seq<byte>, Status>)
    ensures r == AssembleContainerSpec(manifest, images, signature, identity, verify, hash)
  {
    hide E.AssembleSpec, CheckContainerSpec;
    if |signature| != E.SIGNATURE_BYTES {
      return Err(Malformed);
    }
    var sign: seq<byte> -> seq<byte> := _ => signature;
    var data :- E.Assemble(manifest, images, sign);
    var _ :- CheckContainer(data, identity, verify, hash);
    r := Ok(data);
  }

  // ---------------------------------------------------------------- byte accounting

  /** The images a checked container holds. */
  function Slices(data: seq<byte>, start: nat, lengths: seq<nat>): (images: seq<seq<byte>>)
    requires E.Total(start, lengths) <= |data|
    ensures |images| == |lengths|
    decreases |lengths|
  {
    if lengths == [] then []
    else
      var offset := E.ImageOffset(start);
      [data[offset..offset + lengths[0]]] + Slices(data, offset + lengths[0], lengths[1..])
  }

  lemma {:induction false} SlicesAt(data: seq<byte>, start: nat, lengths: seq<nat>, i: nat)
    requires E.Total(start, lengths) <= |data| && i < |lengths|
    ensures E.Offsets(start, lengths)[i] + lengths[i] <= |data|
    ensures Slices(data, start, lengths)[i] == data[E.Offsets(start, lengths)[i]..E.Offsets(start, lengths)[i] + lengths[i]]
    decreases |lengths|
  {
    if i > 0 {
      SlicesAt(data, E.ImageOffset(start) + lengths[0], lengths[1..], i - 1);
    }
  }

  ghost predicate DigestsMatch(images: seq<M.Image>, blobs: seq<seq<byte>>, hash: Hash) {
    && |blobs| == |images|
    && forall i :: 0 <= i < |images| ==> |blobs[i]| == images[i].length && hash(blobs[i]) == images[i].digest
  }

  lemma ZerosUnique(s: seq<byte>)
    ensures AllZero(s) <==> s == Zeros(|s|)
  {
  }

  /** A body walk that ends at the end of the data has seen exactly a body: padding is zero, each image
      sits at its offset with its digest, and nothing else is there. */
  lemma NoBodiesAccount(data: seq<byte>, images: seq<M.Image>, previous: nat, hash: Hash)
    requires images == [] && previous == |data|
    ensures InRange(data, images, E.Offsets(previous, M.ImageLengths(images)), previous)
    ensures E.Total(previous, M.ImageLengths(images)) == |data|
    ensures CheckBodies(data, images, E.Offsets(previous, M.ImageLengths(images)), previous, hash).None?
    ensures data[previous..] == E.Body(previous, Slices(data, previous, M.ImageLengths(images)))
    ensures DigestsMatch(images, Slices(data, previous, M.ImageLengths(images)), hash)
  {
  }

  lemma {:induction false} BodiesAccount(data: seq<byte>, images: seq<M.Image>, previous: nat, hash: Hash)
    requires E.Total(previous, M.ImageLengths(images)) == |data|
    ensures InRange(data, images, E.Offsets(previous, M.ImageLengths(images)), previous)
    ensures CheckBodies(data, images, E.Offsets(previous, M.ImageLengths(images)), previous, hash).None? <==>
              && data[previous..] == E.Body(previous, Slices(data, previous, M.ImageLengths(images)))
              && DigestsMatch(images, Slices(data, previous, M.ImageLengths(images)), hash)
    decreases |images|
  {
    hide *;
    if images == [] {
      TotalOfNone(previous, M.ImageLengths(images));
      NoBodiesAccount(data, images, previous, hash);
    } else {
      var next := E.ImageOffset(previous) + images[0].length;
      SlicesStep(data, images, previous);
      CheckBodiesStep(data, images, previous, hash);
      BodiesAccount(data, images[1..], next, hash);
      var blobs, rest := Slices(data, previous, M.ImageLengths(images)), Slices(data, next, M.ImageLengths(images[1..]));
      BodySplit(data, previous, E.ImageOffset(previous), next, E.Body(next, rest));
      DigestsSplit(images, blobs, hash);
      BodyUnfold(previous, blobs);
    }
  }

  lemma TotalOfNone(start: nat, lengths: seq<nat>)
    requires |lengths| == 0
    ensures E.Total(start, lengths) == start
  {
  }

  lemma BodyUnfold(previous: nat, blobs: seq<seq<byte>>)
    requires blobs != []
    ensures E.Body(previous, blobs)
         == Zeros(E.ImageOffset(previous) - previous) + blobs[0] + E.Body(E.ImageOffset(previous) + |blobs[0]|, blobs[1..])
  {
  }

  lemma SlicesStep(data: seq<byte>, images: seq<M.Image>, previous: nat)
    requires images != [] && E.Total(previous, M.ImageLengths(images)) == |data|
    ensures var offset := E.ImageOffset(previous); var next := offset + images[0].length;
            var blobs := Slices(data, previous, M.ImageLengths(images));
            && next <= |data| && E.Total(next, M.ImageLengths(images[1..])) == |data|
            && blobs[0] == data[offset..next]
            && blobs[1..] == Slices(data, next, M.ImageLengths(images[1..]))
  {
    hide E.ImageOffset;
    assert M.ImageLengths(images)[1..] == M.ImageLengths(images[1..]);
  }

  lemma CheckBodiesStep(data: seq<byte>, images: seq<M.Image>, previous: nat, hash: Hash)
    requires images != [] && E.Total(previous, M.ImageLengths(images)) == |data|
    ensures var offset := E.ImageOffset(previous); var next := offset + images[0].length;
            && next <= |data| && E.Total(next, M.ImageLengths(images[1..])) == |data|
            && InRange(data, images, E.Offsets(previous, M.ImageLengths(images)), previous)
            && InRange(data, images[1..], E.Offsets(next, M.ImageLengths(images[1..])), next)
            && (CheckBodies(data, images, E.Offsets(previous, M.ImageLengths(images)), previous, hash).None? <==>
                  && AllZero(data[previous..offset])
                  && hash(data[offset..next]) == images[0].digest
                  && CheckBodies(data, images[1..], E.Offsets(next, M.ImageLengths(images[1..])), next, hash).None?)
  {
    assert M.ImageLengths(images)[1..] == M.ImageLengths(images[1..]);
    PlacedInRange(data, images, previous);
    PlacedInRange(data, images[1..], E.ImageOffset(previous) + images[0].length);
    hide AllZero;
    assert E.Offsets(previous, M.ImageLengths(images))[1..]
        == E.Offsets(E.ImageOffset(previous) + images[0].length, M.ImageLengths(images[1..]));
  }

  lemma BodySplit(data: seq<byte>, previous: nat, offset: nat, next: nat, rest: seq<byte>)
    requires previous <= offset <= next <= |data|
    ensures data[previous..] == Zeros(offset - previous) + data[offset..next] + rest <==>
              AllZero(data[previous..offset]) && data[next..] == rest
  {
    ZerosUnique(data[previous..offset]);
    var whole := data[previous..];
    assert whole == data[previous..offset] + data[offset..next] + data[next..];
    var spelled := Zeros(offset - previous) + data[offset..next] + rest;
    if whole == spelled {
      assert data[previous..offset] == whole[..offset - previous] == spelled[..offset - previous];
      assert data[next..] == whole[next - previous..] == spelled[next - previous..] == rest;
    }
  }

  lemma DigestsSplit(images: seq<M.Image>, blobs: seq<seq<byte>>, hash: Hash)
    requires images != [] && blobs != [] && |blobs| == |images|
    ensures DigestsMatch(images, blobs, hash) <==>
              |blobs[0]| == images[0].length && hash(blobs[0]) == images[0].digest
              && DigestsMatch(images[1..], blobs[1..], hash)
  {
    if |blobs[0]| == images[0].length && hash(blobs[0]) == images[0].digest && DigestsMatch(images[1..], blobs[1..], hash) {
      forall i | 0 <= i < |images| ensures |blobs[i]| == images[i].length && hash(blobs[i]) == images[i].digest {
        assert i > 0 ==> blobs[i] == blobs[1..][i - 1] && images[i] == images[1..][i - 1];
      }
    }
    if DigestsMatch(images, blobs, hash) {
      forall i | 0 <= i < |images[1..]|
        ensures |blobs[1..][i]| == images[1..][i].length && hash(blobs[1..][i]) == images[1..][i].digest
      {
        assert blobs[1..][i] == blobs[i + 1] && images[1..][i] == images[i + 1];
      }
    }
  }

  lemma {:induction false} SlicesOfBody(data: seq<byte>, start: nat, blobs: seq<seq<byte>>)
    requires start <= |data| && data[start..] == E.Body(start, blobs)
    ensures E.Total(start, E.Lengths(blobs)) == |data|
    ensures Slices(data, start, E.Lengths(blobs)) == blobs
    decreases |blobs|
  {
    E.BodyLength(start, blobs);
    if blobs != [] {
      var offset, rest := E.ImageOffset(start), blobs[1..];
      var next := offset + |blobs[0]|;
      assert E.Lengths(blobs)[1..] == E.Lengths(rest);
      assert data[offset..next] == data[start..][offset - start..next - start];
      assert data[next..] == data[start..][next - start..];
      SlicesOfBody(data, next, rest);
    }
  }

  // ---------------------------------------------------------------- what a container is

  /** A manifest, its images and a signature that belong together and suit the device. */
  ghost predicate Acceptable(v: Value, blobs: seq<seq<byte>>, signature: seq<byte>, identity: M.Identity,
                             verify: E.Verify, hash: Hash)
  {
    && EncodeDocument(v).Ok?
    && |signature| == E.SIGNATURE_BYTES
    && verify(EncodeDocument(v).value, signature).None?
    && M.TypeDocument(v).Ok?
    && M.ValidFor(M.TypeDocument(v).value, identity)
    && DigestsMatch(M.TypeDocument(v).value.images, blobs, hash)
  }

  lemma AcceptableParts(v: Value, blobs: seq<seq<byte>>, signature: seq<byte>, identity: M.Identity,
                        verify: E.Verify, hash: Hash)
    requires Acceptable(v, blobs, signature, identity, verify, hash)
    ensures var document, images := EncodeDocument(v).value, M.TypeDocument(v).value.images;
            var size, lengths := E.PrefixSize(|document|), M.ImageLengths(images);
            && 1 <= |document| <= MAX_BYTES
            && E.Lengths(blobs) == lengths && |blobs| == |images| && 1 <= |images| <= 3
            && E.ImageOffset(size) + |images| <= E.Total(size, lengths) <= E.MAX_BUNDLE
            && E.ImagesWellSized(blobs)
  {
    var d := M.TypeDocument(v).value;
    E.DocumentFits(v);
    M.TypedDocument(v);
    M.ValidTotal(d, identity, E.PrefixSize(|EncodeDocument(v).value|));
    hide EncodeDocument, M.TypeDocument, E.Total, E.ImageOffset;
    assert E.Lengths(blobs) == M.ImageLengths(d.images);
    forall i | 0 <= i < |blobs| ensures 1 <= |blobs[i]| <= E.MAX_IMAGE_BYTES {
      assert M.ImageAllowed(d, d.images[i]);
    }
  }

  /** The layout of a container: where its prefix ends and what stands on either side. */
  lemma ContainerShape(document: seq<byte>, signature: seq<byte>, blobs: seq<seq<byte>>)
    requires |document| <= MAX_BYTES && |signature| == E.SIGNATURE_BYTES && |blobs| <= 3
    requires E.Total(E.PrefixSize(|document|), E.Lengths(blobs)) <= E.MAX_BUNDLE
    ensures var data, size := E.Container(document, signature, blobs), E.PrefixSize(|document|);
            var total := E.Total(size, E.Lengths(blobs));
            var h := E.HeaderFor(|document|, |blobs|, total);
            && |data| == total && size <= |data|
            && data[..size] == E.Pack(h) + document + signature
            && data[size..] == E.Body(size, blobs)
            && E.Unpack(data) == h
  {
    var data, size := E.Container(document, signature, blobs), E.PrefixSize(|document|);
    var h := E.HeaderFor(|document|, |blobs|, E.Total(size, E.Lengths(blobs)));
    E.BodyLength(size, blobs);
    E.HeaderRoundTrip(h, data);
    hide E.Pack, E.Unpack, E.Body, E.Total;
    assert data[..E.HEADER_SIZE] == E.Pack(h);
  }

  /** The checker accepts the container of every acceptable combination. */
  lemma CheckAcceptsContainer(v: Value, blobs: seq<seq<byte>>, signature: seq<byte>, identity: M.Identity,
                              verify: E.Verify, hash: Hash)
    requires Acceptable(v, blobs, signature, identity, verify, hash)
    ensures var document, d := EncodeDocument(v).value, M.TypeDocument(v).value;
            var size := E.PrefixSize(|document|);
            CheckContainerSpec(E.Container(document, signature, blobs), identity, verify, hash)
              == Ok(M.Checked(v, d, E.Offsets(size, E.Lengths(blobs)), E.Total(size, E.Lengths(blobs))))
  {
    var document, d := EncodeDocument(v).value, M.TypeDocument(v).value;
    var data, size := E.Container(document, signature, blobs), E.PrefixSize(|document|);
    var total := E.Total(size, E.Lengths(blobs));
    AcceptableParts(v, blobs, signature, identity, verify, hash);
    ContainerShape(document, signature, blobs);
    assert E.PrefixOf(data[..size], verify, v, document, signature, |blobs|, total)
        && M.TypeDocument(v).Ok? && M.ValidFor(d, identity) && DigestsMatch(d.images, blobs, hash) by {
      hide E.Pack, E.Body, E.Total, EncodeDocument, M.TypeDocument, E.ImageOffset, M.ValidFor, E.Container;
    }
    assert E.PrefixLength(data) == Ok(size) by { hide E.Unpack, E.Container; }
    hide *;
    M.CheckManifestAccepts(data[..size], identity, verify, v, document, signature, |blobs|, total);
    SlicesOfBody(data, size, blobs);
    BodiesAccount(data, d.images, size, hash);
    CheckContainerFold(data, size, identity, verify, hash, M.Checked(v, d, E.Offsets(size, E.Lengths(blobs)), total));
  }

  lemma CheckContainerFold(data: seq<byte>, size: nat, identity: M.Identity, verify: E.Verify, hash: Hash, c: M.Checked)
    requires |data| <= E.MAX_BUNDLE && size <= |data| && E.PrefixLength(data) == Ok(size)
    requires M.CheckManifestSpec(data[..size], identity, verify) == Ok(c) && |data| == c.total
    requires |c.document.images| == |c.offsets| && InRange(data, c.document.images, c.offsets, size)
    requires CheckBodies(data, c.document.images, c.offsets, size, hash).None?
    ensures CheckContainerSpec(data, identity, verify, hash) == Ok(c)
  {
    hide E.PrefixLength, M.CheckManifestSpec, CheckBodies, InRange;
  }

  /** What a checked container consists of: the signature behind its document, and the image slices at
      the returned offsets. */
  function SignatureOf(data: seq<byte>, c: M.Checked): seq<byte> {
    var size := if EncodeDocument(c.manifest).Ok? then E.PrefixSize(|EncodeDocument(c.manifest).value|) else 0;
    if E.SIGNATURE_BYTES <= size <= |data| then data[size - E.SIGNATURE_BYTES..size] else []
  }

  function ImagesOf(data: seq<byte>, c: M.Checked): seq<seq<byte>> {
    seq(|c.offsets|, i requires 0 <= i < |c.offsets| =>
      if i < |c.document.images| && c.offsets[i] + c.document.images[i].length <= |data|
      then data[c.offsets[i]..c.offsets[i] + c.document.images[i].length] else [])
  }

  lemma CheckContainerUnfold(data: seq<byte>, identity: M.Identity, verify: E.Verify, hash: Hash)
    returns (size: nat, prefix: seq<byte>, c: M.Checked)
    requires CheckContainerSpec(data, identity, verify, hash).Ok?
    ensures |data| <= E.MAX_BUNDLE && E.PrefixLength(data) == Ok(size)
    ensures prefix == if size <= |data| then data[..size] else data
    ensures CheckContainerSpec(data, identity, verify, hash) == Ok(c)
    ensures M.CheckManifestSpec(prefix, identity, verify) == Ok(c) && |data| == c.total
    ensures |c.document.images| == |c.offsets| && InRange(data, c.document.images, c.offsets, |prefix|)
    ensures CheckBodies(data, c.document.images, c.offsets, |prefix|, hash).None?
  {
    size := E.PrefixLength(data).value;
    prefix := if size <= |data| then data[..size] else data;
    c := M.CheckManifestSpec(prefix, identity, verify).value;
    hide E.PrefixLength, M.CheckManifestSpec, CheckBodies, InRange, E.Offsets, E.Total;
    CheckedPrefix(prefix, identity, verify);
    PlacedInRange(data, c.document.images, |prefix|);
  }

  /** The prefix that was checked is the one that fills the data up to the first image. */
  lemma CheckedPrefixIs(data: seq<byte>, size: nat, prefix: seq<byte>, identity: M.Identity, verify: E.Verify, c: M.Checked)
    returns (document: seq<byte>, signature: seq<byte>)
    requires E.PrefixLength(data) == Ok(size)
    requires prefix == if size <= |data| then data[..size] else data
    requires M.CheckManifestSpec(prefix, identity, verify) == Ok(c) && |data| == c.total
    ensures E.PrefixOf(prefix, verify, c.manifest, document, signature, |c.document.images|, c.total)
    ensures size == |prefix| == E.PrefixSize(|document|) && size <= |data|
    ensures M.TypeDocument(c.manifest) == Ok(c.document) && M.ValidFor(c.document, identity)
    ensures c.offsets == E.Offsets(size, M.ImageLengths(c.document.images))
    ensures c.total == E.Total(size, M.ImageLengths(c.document.images))
  {
    var count, total;
    document, signature, count, total := PrefixWitness(prefix, identity, verify, c);
    E.PrefixAccepted(prefix, verify, c.manifest, document, signature, count, total);
    M.CheckManifestAccepts(prefix, identity, verify, c.manifest, document, signature, count, total);
    assert E.Unpack(prefix) == E.Unpack(data) by {
      hide FromLittleEndian;
      SameHeader(prefix, data);
    }
    hide M.CheckManifestSpec, M.TypeDocument, M.ValidFor, E.Offsets, E.Total, E.Pack, E.Unpack, EncodeDocument;
  }

  lemma SameHeader(prefix: seq<byte>, data: seq<byte>)
    requires E.HEADER_SIZE <= |prefix| && prefix <= data
    ensures E.Unpack(prefix) == E.Unpack(data)
  {
    hide FromLittleEndian;
    assert prefix[..8] == data[..8] && prefix[8..10] == data[8..10] && prefix[10..12] == data[10..12];
    assert prefix[12..16] == data[12..16] && prefix[16..18] == data[16..18];
    assert prefix[18..20] == data[18..20] && prefix[20..24] == data[20..24];
  }

  lemma PrefixWitness(prefix: seq<byte>, identity: M.Identity, verify: E.Verify, c: M.Checked)
    returns (document: seq<byte>, signature: seq<byte>, count: nat, total: nat)
    requires M.CheckManifestSpec(prefix, identity, verify) == Ok(c)
    ensures E.PrefixOf(prefix, verify, c.manifest, document, signature, count, total)
  {
    E.CheckPrefixMeaning(prefix, verify, c.manifest);
    hide E.CheckPrefix, M.TypeDocument, M.CheckDocument;
    document, signature, count, total :| E.PrefixOf(prefix, verify, c.manifest, document, signature, count, total);
  }

  /** Every accepted container is the container of its manifest, its signature and its image slices:
      header, document, signature, padding and images account for every byte. */
  lemma CheckedIsContainer(data: seq<byte>, identity: M.Identity, verify: E.Verify, hash: Hash)
    requires CheckContainerSpec(data, identity, verify, hash).Ok?
    ensures var c := CheckContainerSpec(data, identity, verify, hash).value;
            && Acceptable(c.manifest, ImagesOf(data, c), SignatureOf(data, c), identity, verify, hash)
            && data == E.Container(EncodeDocument(c.manifest).value, SignatureOf(data, c), ImagesOf(data, c))
  {
    var size, prefix, c := CheckContainerUnfold(data, identity, verify, hash);
    var document, signature := CheckedPrefixIs(data, size, prefix, identity, verify, c);
    var lengths := M.ImageLengths(c.document.images);
    BodiesAccount(data, c.document.images, size, hash);
    var blobs := Slices(data, size, lengths);
    ImagesAreSlices(data, size, c);
    PiecesFit(data, size, prefix, document, signature, blobs, c, verify);
    hide CheckContainerSpec, E.PrefixLength, M.CheckManifestSpec, CheckBodies, InRange, E.Offsets, E.Total,
      M.TypeDocument, M.ValidFor, E.Body, E.Pack, ImagesOf, SignatureOf, E.Container, DigestsMatch;
    assert EncodeDocument(c.manifest) == Ok(document);
  }

  lemma ImagesAreSlices(data: seq<byte>, size: nat, c: M.Checked)
    requires E.Total(size, M.ImageLengths(c.document.images)) == |data|
    requires c.offsets == E.Offsets(size, M.ImageLengths(c.document.images))
    ensures ImagesOf(data, c) == Slices(data, size, M.ImageLengths(c.document.images))
  {
    var lengths := M.ImageLengths(c.document.images);
    hide E.Offsets, E.Total, Slices;
    forall i | 0 <= i < |c.offsets| ensures ImagesOf(data, c)[i] == Slices(data, size, lengths)[i] {
      SlicesAt(data, size, lengths, i);
    }
  }

  lemma PiecesFit(data: seq<byte>, size: nat, prefix: seq<byte>, document: seq<byte>, signature: seq<byte>,
                  blobs: seq<seq<byte>>, c: M.Checked, verify: E.Verify)
    requires size <= |data| && prefix == data[..size] && size == E.PrefixSize(|document|)
    requires E.PrefixOf(prefix, verify, c.manifest, document, signature, |c.document.images|, c.total)
    requires |blobs| == |c.document.images| && E.Lengths(blobs) == M.ImageLengths(c.document.images)
    requires c.total == E.Total(size, M.ImageLengths(c.document.images))
    requires data[size..] == E.Body(size, blobs)
    ensures SignatureOf(data, c) == signature && |signature| == E.SIGNATURE_BYTES
    ensures data == E.Container(document, signature, blobs)
    ensures EncodeDocument(c.manifest) == Ok(document) && verify(document, signature).None?
  {
    hide E.Pack, E.Body, E.Total, E.ImageOffset, EncodeDocument;
    assert data == data[..size] + data[size..];
    assert signature == prefix[size - E.SIGNATURE_BYTES..];
  }

  /** Container canonicity: assembling the returned manifest with the image slices and the signature
      found in an accepted container gives back exactly its bytes. */
  lemma CanonicalContainer(data: seq<byte>, identity: M.Identity, verify: E.Verify, hash: Hash)
    requires CheckContainerSpec(data, identity, verify, hash).Ok?
    ensures var c := CheckContainerSpec(data, identity, verify, hash).value;
            AssembleContainerSpec(c.manifest, ImagesOf(data, c), SignatureOf(data, c), identity, verify, hash) == Ok(data)
  {
    var c := CheckContainerSpec(data, identity, verify, hash).value;
    CheckedIsContainer(data, identity, verify, hash);
    AssembledIs(c.manifest, ImagesOf(data, c), SignatureOf(data, c), identity, verify, hash);
    hide *;
  }

  lemma AssembledIs(v: Value, blobs: seq<seq<byte>>, signature: seq<byte>, identity: M.Identity,
                    verify: E.Verify, hash: Hash)
    requires Acceptable(v, blobs, signature, identity, verify, hash)
    ensures AssembleContainerSpec(v, blobs, signature, identity, verify, hash)
         == Ok(E.Container(EncodeDocument(v).value, signature, blobs))
  {
    AcceptableParts(v, blobs, signature, identity, verify, hash);
    CheckAcceptsContainer(v, blobs, signature, identity, verify, hash);
    var sign: seq<byte> -> seq<byte> := _ => signature;
    E.AssembleMeaning(v, blobs, sign);
    assert E.AssembleSpec(v, blobs, sign) == Ok(E.Container(EncodeDocument(v).value, signature, blobs)) by {
      hide EncodeDocument, E.Container, E.AssembleSpec;
    }
    hide E.AssembleSpec, CheckContainerSpec, EncodeDocument, E.Container;
  }

  /** The blobs lay out to the same bytes as images the manifest describes. */
  ghost predicate LaidOutLike(v: Value, blobs: seq<seq<byte>>, others: seq<seq<byte>>)
    requires EncodeDocument(v).Ok?
  {
    var size := E.PrefixSize(|EncodeDocument(v).value|);
    |others| == |blobs| && E.Body(size, others) == E.Body(size, blobs)
  }

  /** The assembler produces a container exactly when the images lay out to the bytes of images the
      manifest describes. It compares bytes, not lengths: see `AssembledAlike`. */
  lemma AssembleContainerMeaning(v: Value, blobs: seq<seq<byte>>, signature: seq<byte>, identity: M.Identity,
                                 verify: E.Verify, hash: Hash, data: seq<byte>)
    ensures AssembleContainerSpec(v, blobs, signature, identity, verify, hash) == Ok(data) <==>
              && EncodeDocument(v).Ok?
              && E.ImagesWellSized(blobs)
              && data == E.Container(EncodeDocument(v).value, signature, blobs)
              && exists others :: Acceptable(v, others, signature, identity, verify, hash) && LaidOutLike(v, blobs, others)
  {
    if AssembleContainerSpec(v, blobs, signature, identity, verify, hash) == Ok(data) {
      var others := AssembledParts(v, blobs, signature, identity, verify, hash, data);
    }
    if EncodeDocument(v).Ok? && E.ImagesWellSized(blobs) {
      if others :| Acceptable(v, others, signature, identity, verify, hash) && LaidOutLike(v, blobs, others) {
        LaidOutAssembles(v, blobs, others, signature, identity, verify, hash);
      }
    }
  }

  lemma LaidOutAssembles(v: Value, blobs: seq<seq<byte>>, others: seq<seq<byte>>, signature: seq<byte>,
                         identity: M.Identity, verify: E.Verify, hash: Hash)
    requires Acceptable(v, others, signature, identity, verify, hash)
    requires E.ImagesWellSized(blobs) && LaidOutLike(v, blobs, others)
    ensures AssembleContainerSpec(v, blobs, signature, identity, verify, hash)
         == Ok(E.Container(EncodeDocument(v).value, signature, blobs))
  {
    hide E.AssembleSpec, CheckContainerSpec, EncodeDocument, E.Container, M.TypeDocument, M.ValidFor, DigestsMatch, LaidOutLike,
      E.ImagesWellSized, E.Offsets, E.Total;
    CheckAcceptsContainer(v, others, signature, identity, verify, hash);
    LaidOutAlike(v, blobs, others, signature);
    E.AssembleMeaning(v, blobs, _ => signature);
  }

  lemma LaidOutAlike(v: Value, blobs: seq<seq<byte>>, others: seq<seq<byte>>, signature: seq<byte>)
    requires EncodeDocument(v).Ok? && LaidOutLike(v, blobs, others)
    ensures var document := EncodeDocument(v).value;
            E.Container(document, signature, blobs) == E.Container(document, signature, others)
  {
    var size := E.PrefixSize(|EncodeDocument(v).value|);
    E.BodyLength(size, blobs);
    E.BodyLength(size, others);
    hide EncodeDocument, E.Body, E.Pack, E.Total;
  }

  lemma AssembledParts(v: Value, blobs: seq<seq<byte>>, signature: seq<byte>, identity: M.Identity,
                       verify: E.Verify, hash: Hash, data: seq<byte>) returns (others: seq<seq<byte>>)
    requires AssembleContainerSpec(v, blobs, signature, identity, verify, hash) == Ok(data)
    ensures EncodeDocument(v).Ok? && E.ImagesWellSized(blobs)
    ensures data == E.Container(EncodeDocument(v).value, signature, blobs)
    ensures Acceptable(v, others, signature, identity, verify, hash) && LaidOutLike(v, blobs, others)
  {
    var sign: seq<byte> -> seq<byte> := _ => signature;
    assert |signature| == E.SIGNATURE_BYTES && E.AssembleSpec(v, blobs, sign) == Ok(data)
        && CheckContainerSpec(data, identity, verify, hash).Ok? by {
      hide E.AssembleSpec, CheckContainerSpec;
    }
    E.AssembleMeaning(v, blobs, sign);
    CheckedIsContainer(data, identity, verify, hash);
    var c := CheckContainerSpec(data, identity, verify, hash).value;
    others := ImagesOf(data, c);
    ContainerDetermines(v, blobs, signature, c.manifest, others, SignatureOf(data, c), identity, verify, hash);
    hide *;
  }

  /** A container's bytes determine its manifest, its signature and its body. */
  lemma ContainerDetermines(v: Value, blobs: seq<seq<byte>>, signature: seq<byte>,
                            w: Value, others: seq<seq<byte>>, other: seq<byte>,
                            identity: M.Identity, verify: E.Verify, hash: Hash)
    requires EncodeDocument(v).Ok? && E.ImagesWellSized(blobs) && |signature| == E.SIGNATURE_BYTES
    requires Acceptable(w, others, other, identity, verify, hash)
    requires E.Container(EncodeDocument(v).value, signature, blobs)
          == E.Container(EncodeDocument(w).value, other, others)
    ensures v == w && signature == other && LaidOutLike(v, blobs, others)
  {
    var a, b := EncodeDocument(v).value, EncodeDocument(w).value;
    E.DocumentFits(v);
    AcceptableParts(w, others, other, identity, verify, hash);
    E.BundleFits(E.PrefixSize(|a|), E.Lengths(blobs));
    ContainerShape(a, signature, blobs);
    ContainerShape(b, other, others);
    var data, size := E.Container(a, signature, blobs), E.PrefixSize(|a|);
    hide EncodeDocument, E.Container, E.Pack, E.Unpack, E.Body, E.Total, Acceptable, E.ImageOffset;
    assert |a| == |b| && |blobs| == |others|;
    PrefixParts(data[..size], E.HeaderFor(|a|, |blobs|, |data|), a, b, signature, other);
    CborProofs.DocumentBijection(v, a);
    CborProofs.DocumentBijection(w, a);
  }

  lemma PrefixParts(prefix: seq<byte>, h: E.Header, a: seq<byte>, b: seq<byte>, s: seq<byte>, t: seq<byte>)
    requires |a| == |b| && prefix == E.Pack(h) + a + s == E.Pack(h) + b + t
    ensures a == b && s == t
  {
    hide E.Pack;
    var n := |E.Pack(h)|;
    assert a == prefix[n..n + |a|] == b;
    assert s == prefix[n + |a|..] == t;
  }

  /** For images of the declared lengths there is no slack: they are accepted exactly when they are the
      images the manifest describes. */
  lemma AssembledAsDeclared(v: Value, blobs: seq<seq<byte>>, signature: seq<byte>, identity: M.Identity,
                            verify: E.Verify, hash: Hash)
    requires M.TypeDocument(v).Ok?
    requires E.Lengths(blobs) == M.ImageLengths(M.TypeDocument(v).value.images)
    ensures AssembleContainerSpec(v, blobs, signature, identity, verify, hash).Ok? <==>
              Acceptable(v, blobs, signature, identity, verify, hash)
  {
    if Acceptable(v, blobs, signature, identity, verify, hash) {
      AssembledIs(v, blobs, signature, identity, verify, hash);
    }
    if AssembleContainerSpec(v, blobs, signature, identity, verify, hash).Ok? {
      var data := AssembleContainerSpec(v, blobs, signature, identity, verify, hash).value;
      var others := AssembledParts(v, blobs, signature, identity, verify, hash, data);
      hide AssembleContainerSpec, M.TypeDocument, EncodeDocument, Slices;
      var size := E.PrefixSize(|EncodeDocument(v).value|);
      AcceptableParts(v, others, signature, identity, verify, hash);
      var body := Zeros(size) + E.Body(size, blobs);
      assert body[size..] == E.Body(size, blobs) == E.Body(size, others);
      SlicesOfBody(body, size, blobs);
      SlicesOfBody(body, size, others);
    }
  }

  // ---------------------------------------------------------------- what the checks cannot see

  /** An image with its padding, if another one follows. */
  function Padded(s: seq<byte>): seq<byte> {
    s + Zeros(E.ImageOffset(|s|) - |s|)
  }

  /** What stands behind the start of the first image. */
  function Stream(blobs: seq<seq<byte>>): seq<byte> {
    if blobs == [] then [] else if |blobs| == 1 then blobs[0] else Padded(blobs[0]) + Stream(blobs[1..])
  }

  lemma OffsetShift(start: nat, n: nat)
    requires start % E.IMAGE_ALIGNMENT == 0
    ensures E.ImageOffset(start + n) == start + E.ImageOffset(n)
  {
  }

  lemma {:induction false} BodyIsStream(size: nat, blobs: seq<seq<byte>>)
    requires blobs != []
    ensures E.Body(size, blobs) == Zeros(E.ImageOffset(size) - size) + Stream(blobs)
    decreases |blobs|
  {
    hide E.Body, E.ImageOffset, Stream, Padded;
    var start := E.ImageOffset(size);
    var next := start + |blobs[0]|;
    BodyUnfold(size, blobs);
    NextOffset(size, |blobs[0]|);
    StreamUnfold(blobs);
    if |blobs| == 1 {
      BodyOfNone(next, blobs[1..]);
      assert Zeros(start - size) + blobs[0] + [] == Zeros(start - size) + blobs[0];
    } else {
      BodyIsStream(next, blobs[1..]);
      StreamGroups(Zeros(start - size), blobs[0], Zeros(E.ImageOffset(next) - next), Stream(blobs[1..]));
    }
  }

  lemma NextOffset(size: nat, n: nat)
    ensures var next := E.ImageOffset(size) + n; E.ImageOffset(next) - next == E.ImageOffset(n) - n
  {
    OffsetShift(E.ImageOffset(size), n);
  }

  lemma StreamUnfold(blobs: seq<seq<byte>>)
    requires blobs != []
    ensures |blobs| == 1 ==> Stream(blobs) == blobs[0]
    ensures |blobs| > 1 ==>
              Stream(blobs) == blobs[0] + Zeros(E.ImageOffset(|blobs[0]|) - |blobs[0]|) + Stream(blobs[1..])
  {
    hide E.ImageOffset;
  }

  lemma BodyOfNone(start: nat, blobs: seq<seq<byte>>)
    requires blobs == []
    ensures E.Body(start, blobs) == []
  {
  }

  lemma StreamGroups(a: seq<byte>, b: seq<byte>, c: seq<byte>, d: seq<byte>)
    ensures a + b + (c + d) == a + ((b + c) + d)
  {
  }

  /** Images lay out alike exactly when they make the same stream, whatever the manifest in front of them. */
  lemma LaidOutMeaning(v: Value, blobs: seq<seq<byte>>, others: seq<seq<byte>>)
    requires EncodeDocument(v).Ok? && blobs != [] && others != []
    ensures LaidOutLike(v, blobs, others) <==> |others| == |blobs| && Stream(others) == Stream(blobs)
  {
    var size := E.PrefixSize(|EncodeDocument(v).value|);
    var gap := Zeros(E.ImageOffset(size) - size);
    BodyIsStream(size, blobs);
    BodyIsStream(size, others);
    hide E.Body, Stream, EncodeDocument, E.ImageOffset;
    assert (gap + Stream(blobs))[|gap|..] == Stream(blobs) && (gap + Stream(others))[|gap|..] == Stream(others);
  }

  /** What stands in for images the manifest describes: exactly well-sized images, as many, that make the same
      stream are assembled to the same bytes. Where one image ends and the next begins is not seen. */
  lemma AssembledAlike(v: Value, blobs: seq<seq<byte>>, others: seq<seq<byte>>, signature: seq<byte>,
                       identity: M.Identity, verify: E.Verify, hash: Hash)
    requires Acceptable(v, blobs, signature, identity, verify, hash)
    ensures AssembleContainerSpec(v, blobs, signature, identity, verify, hash).Ok?
    ensures AssembleContainerSpec(v, others, signature, identity, verify, hash)
            == AssembleContainerSpec(v, blobs, signature, identity, verify, hash) <==>
              E.ImagesWellSized(others) && |others| == |blobs| && Stream(others) == Stream(blobs)
  {
    hide *;
    Encodes(v, blobs, signature, identity, verify, hash);
    AcceptableParts(v, blobs, signature, identity, verify, hash);
    AssembledIs(v, blobs, signature, identity, verify, hash);
    NotEmpty(blobs);
    var document := EncodeDocument(v).value;
    var made := AssembleContainerSpec(v, others, signature, identity, verify, hash);
    if made == Ok(E.Container(document, signature, blobs)) {
      var like := AssembledParts(v, others, signature, identity, verify, hash, made.value);
      NotEmpty(others);
      ContainerDetermines(v, others, signature, v, blobs, signature, identity, verify, hash);
      LaidOutMeaning(v, others, blobs);
    }
    if E.ImagesWellSized(others) && |others| == |blobs| && Stream(others) == Stream(blobs) {
      NotEmpty(others);
      LaidOutMeaning(v, others, blobs);
      LaidOutAssembles(v, others, blobs, signature, identity, verify, hash);
      LayoutBody(v, others, blobs);
      SameContainer(document, signature, others, blobs);
    }
  }

  lemma Encodes(v: Value, blobs: seq<seq<byte>>, signature: seq<byte>, identity: M.Identity,
                verify: E.Verify, hash: Hash)
    requires Acceptable(v, blobs, signature, identity, verify, hash)
    ensures EncodeDocument(v).Ok? && |signature| == E.SIGNATURE_BYTES
  {
    hide EncodeDocument, M.TypeDocument, M.ValidFor, DigestsMatch;
  }

  lemma NotEmpty(blobs: seq<seq<byte>>)
    requires E.ImagesWellSized(blobs)
    ensures blobs != []
  {
  }

  lemma LayoutBody(v: Value, blobs: seq<seq<byte>>, others: seq<seq<byte>>)
    requires EncodeDocument(v).Ok? && LaidOutLike(v, blobs, others)
    ensures |others| == |blobs|
    ensures E.Body(E.PrefixSize(|EncodeDocument(v).value|), others)
         == E.Body(E.PrefixSize(|EncodeDocument(v).value|), blobs)
  {
    hide E.Body, EncodeDocument;
  }

  lemma SameContainer(document: seq<byte>, signature: seq<byte>, blobs: seq<seq<byte>>, others: seq<seq<byte>>)
    requires |blobs| == |others| && E.Body(E.PrefixSize(|document|), blobs) == E.Body(E.PrefixSize(|document|), others)
    ensures E.Container(document, signature, blobs) == E.Container(document, signature, others)
  {
    hide *;
    var size := E.PrefixSize(|document|);
    E.BodyLength(size, blobs);
    E.BodyLength(size, others);
    ContainerFold(document, signature, blobs);
    ContainerFold(document, signature, others);
  }

  lemma ContainerFold(document: seq<byte>, signature: seq<byte>, blobs: seq<seq<byte>>)
    ensures var size := E.PrefixSize(|document|);
            E.Container(document, signature, blobs)
              == E.Pack(E.HeaderFor(|document|, |blobs|, E.Total(size, E.Lengths(blobs)))) + document + signature
                 + E.Body(size, blobs)
  {
    hide E.Pack, E.Total, E.Body, E.Lengths;
  }

  lemma StreamOfTwo(a: seq<byte>, b: seq<byte>)
    ensures Stream([a, b]) == Padded(a) + b
  {
    assert [a, b][1..] == [b];
  }

  lemma PairWellSized(a: seq<byte>, b: seq<byte>)
    requires 1 <= |a| <= E.MAX_IMAGE_BYTES && 1 <= |b| <= E.MAX_IMAGE_BYTES
    ensures E.ImagesWellSized([a, b])
  {
  }

  /** Two pairs of images with one stream: if the manifest describes either, both are assembled to one container. */
  lemma PairsAlike(v: Value, a: seq<byte>, b: seq<byte>, c: seq<byte>, d: seq<byte>, signature: seq<byte>,
                   identity: M.Identity, verify: E.Verify, hash: Hash)
    requires 1 <= |a| <= E.MAX_IMAGE_BYTES && 1 <= |b| <= E.MAX_IMAGE_BYTES
    requires 1 <= |c| <= E.MAX_IMAGE_BYTES && 1 <= |d| <= E.MAX_IMAGE_BYTES
    requires Padded(a) + b == Padded(c) + d
    requires Acceptable(v, [a, b], signature, identity, verify, hash)
             || Acceptable(v, [c, d], signature, identity, verify, hash)
    ensures AssembleContainerSpec(v, [a, b], signature, identity, verify, hash).Ok?
    ensures AssembleContainerSpec(v, [a, b], signature, identity, verify, hash)
         == AssembleContainerSpec(v, [c, d], signature, identity, verify, hash)
  {
    hide *;
    StreamOfTwo(a, b);
    StreamOfTwo(c, d);
    PairWellSized(a, b);
    PairWellSized(c, d);
    if Acceptable(v, [a, b], signature, identity, verify, hash) {
      AssembledAlike(v, [a, b], [c, d], signature, identity, verify, hash);
    } else {
      AssembledAlike(v, [c, d], [a, b], signature, identity, verify, hash);
    }
  }

  /** An image that lost zero bytes from its end, or gained some, is assembled into the very same accepted
      container as long as its padding ends in the same place. */
  lemma PaddingAbsorbsZeros(v: Value, first: seq<byte>, second: seq<byte>, zeros: nat, signature: seq<byte>,
                            identity: M.Identity, verify: E.Verify, hash: Hash)
    requires zeros > 0 && first != [] && |first| + zeros <= E.MAX_IMAGE_BYTES
    requires E.ImageOffset(|first| + zeros) == E.ImageOffset(|first|)
    requires second != [] && |second| <= E.MAX_IMAGE_BYTES
    requires var longer := first + Zeros(zeros);
             Acceptable(v, [first, second], signature, identity, verify, hash)
             || Acceptable(v, [longer, second], signature, identity, verify, hash)
    ensures var longer := first + Zeros(zeros);
            && AssembleContainerSpec(v, [first, second], signature, identity, verify, hash).Ok?
            && AssembleContainerSpec(v, [first, second], signature, identity, verify, hash)
               == AssembleContainerSpec(v, [longer, second], signature, identity, verify, hash)
  {
    hide *;
    PaddedAlike(first, zeros);
    PairsAlike(v, first, second, first + Zeros(zeros), second, signature, identity, verify, hash);
  }

  lemma PaddedAlike(s: seq<byte>, zeros: nat)
    requires E.ImageOffset(|s| + zeros) == E.ImageOffset(|s|)
    ensures Padded(s + Zeros(zeros)) == Padded(s)
  {
    hide E.ImageOffset;
    var next := E.ImageOffset(|s|);
    assert Zeros(next - |s|) == Zeros(zeros) + Zeros(next - |s + Zeros(zeros)|);
  }

  /** Whole units of arbitrary bytes can stand on either side of the boundary between two images. */
  lemma BoundaryMoves(v: Value, first: seq<byte>, units: seq<byte>, second: seq<byte>, signature: seq<byte>,
                      identity: M.Identity, verify: E.Verify, hash: Hash)
    requires first != [] && |first| % E.IMAGE_ALIGNMENT == 0 && |units| % E.IMAGE_ALIGNMENT == 0 && second != []
    requires |first + units| <= E.MAX_IMAGE_BYTES && |units + second| <= E.MAX_IMAGE_BYTES
    requires Acceptable(v, [first + units, second], signature, identity, verify, hash)
             || Acceptable(v, [first, units + second], signature, identity, verify, hash)
    ensures AssembleContainerSpec(v, [first + units, second], signature, identity, verify, hash).Ok?
    ensures AssembleContainerSpec(v, [first + units, second], signature, identity, verify, hash)
         == AssembleContainerSpec(v, [first, units + second], signature, identity, verify, hash)
  {
    hide *;
    BoundaryAlike(first, units, second);
    PairsAlike(v, first + units, second, first, units + second, signature, identity, verify, hash);
  }

  lemma BoundaryAlike(first: seq<byte>, units: seq<byte>, second: seq<byte>)
    requires |first| % E.IMAGE_ALIGNMENT == 0 && |units| % E.IMAGE_ALIGNMENT == 0
    ensures Padded(first + units) + second == Padded(first) + (units + second)
  {
    Aligned(first);
    Aligned(first + units);
    hide Padded;
    assert first + units + second == first + (units + second);
  }

  lemma Aligned(s: seq<byte>)
    requires |s| % E.IMAGE_ALIGNMENT == 0
    ensures Padded(s) == s
  {
  }

  /** The checker accepts exactly the bytes the assembler can produce. */
  lemma CheckerAcceptsExactlyAssembled(data: seq<byte>, identity: M.Identity, verify: E.Verify, hash: Hash)
    ensures CheckContainerSpec(data, identity, verify, hash).Ok? <==>
              exists v, blobs, signature ::
                AssembleContainerSpec(v, blobs, signature, identity, verify, hash) == Ok(data)
  {
    if CheckContainerSpec(data, identity, verify, hash).Ok? {
      CanonicalContainer(data, identity, verify, hash);
    }
    if v, blobs, signature :| AssembleContainerSpec(v, blobs, signature, identity, verify, hash) == Ok(data) {
      hide CheckContainerSpec, E.AssembleSpec;
    }
  }
}
