/** What the manifest check accepts, with every table written out: it names none of the guards of the program. */
module ManifestRules {
  import opened Prelude
  import Utf8
  import opened Cbor
  import CborProofs
  import opened Envelope
  import opened Manifest
  import ManifestEncoding

  ghost predicate ShortText(t: seq<Utf8.codepoint>) {
    1 <= |t| <= 63 && forall i :: 0 <= i < |t| ==> 0x20 <= t[i] <= 0x7E
  }

  /** One image of a manifest. */
  ghost predicate ImageRules(d: Document, i: Image) {
    && (d.role == 1 ==> i.target == 1 || i.target == 2)
    && (d.role == 2 ==> i.target == 3)
    && (d.role == 3 ==> i.target == 4)
    && 1 <= i.length
    && (i.target == 1 ==> i.length <= 4194304)
    && (i.target == 2 ==> i.length <= 184320)
    && (i.target == 3 ==> i.length <= 4194304)
    && (i.target == 4 ==> i.length <= 2621440)
    && |i.digest| == 32
    && ShortText(i.version)
    && i.sequence < 0x1_0000_0000_0000_0000
    && (i.target == 2 ==> i.signature == 2)
    && (i.target != 2 ==> i.signature == 1)
    && i.abi < 0x1_0000_0000
    && (i.target == 2 ==> d.compatibility.stm.low <= i.abi <= d.compatibility.stm.high)
    && (i.target != 2 ==> d.compatibility.esp.low <= i.abi <= d.compatibility.esp.high)
  }

  /** A manifest for the device of this identity. */
  ghost predicate Rules(d: Document, identity: Identity) {
    && d.role == identity.role && d.board == identity.board && d.layout == identity.layout
    && d.epoch == identity.epoch && d.keyId == identity.keyId
    && |d.packageId| == 16
    && (d.role == 1 || d.role == 2 || d.role == 3)
    && ShortText(d.board) && ShortText(d.layout) && ShortText(d.release)
    && d.epoch < 0x1_0000_0000 && d.keyId < 0x1_0000_0000
    && (d.role == 1 ==> 1 <= |d.images| <= 2)
    && (d.role != 1 ==> |d.images| == 1)
    && (forall i :: 0 <= i < |d.images| ==> ImageRules(d, d.images[i]))
    && (forall i, j :: 0 <= i < j < |d.images| ==> d.images[i].target != d.images[j].target)
    && var c := d.compatibility;
       && c.esp.low <= c.esp.high < 0x1_0000_0000
       && c.stm.low <= c.stm.high < 0x1_0000_0000
       && c.peer.low <= c.peer.high < 0x1_0000_0000
       && (d.role == 1 ==> 1 <= |c.pairs| <= 16)
       && (d.role != 1 ==> |c.pairs| == 0)
       && (forall i :: 0 <= i < |c.pairs| ==>
             c.esp.low <= c.pairs[i].0 <= c.esp.high && c.stm.low <= c.pairs[i].1 <= c.stm.high)
       && (forall i, j :: 0 <= i < j < |c.pairs| ==> c.pairs[i] != c.pairs[j])
       && d.config.0 <= d.config.2 <= d.config.1 < 0x1_0000_0000
       && d.requirements.0 < 0x1_0000_0000 && d.requirements.1 < 0x1_0000_0000
       && d.requirements.2 < 0x1_0000_0000_0000_0000
  }

  lemma TextRules(t: seq<Utf8.codepoint>)
    ensures ManifestEncoding.Printable(t) <==> ShortText(t)
  {
  }

  /** The guards of one image, together, are its rules. */
  lemma ImageMeaning(d: Document, i: Image)
    requires KnownRole(d.role)
    ensures ManifestEncoding.ImageInRange(i) && ImageAllowed(d, i) && i.length <= ImageLimit(i.target) <==> ImageRules(d, i)
  {
    TextRules(i.version);
    hide ShortText, ManifestEncoding.Printable;
  }

  lemma ImagesMeaning(d: Document)
    requires KnownRole(d.role)
    ensures (ManifestEncoding.ImagesInRange(d.images)
             && forall i :: 0 <= i < |d.images| ==>
                  ImageAllowed(d, d.images[i]) && d.images[i].length <= ImageLimit(d.images[i].target))
            <==> forall i :: 0 <= i < |d.images| ==> ImageRules(d, d.images[i])
  {
    forall i | 0 <= i < |d.images|
      ensures (ManifestEncoding.ImageInRange(d.images[i]) && ImageAllowed(d, d.images[i])
               && d.images[i].length <= ImageLimit(d.images[i].target)) <==> ImageRules(d, d.images[i])
    {
      ImageMeaning(d, d.images[i]);
    }
    hide ManifestEncoding.ImageInRange, ImageAllowed, ImageRules, ImageLimit;
  }

  /** Ranges and cross checks together are the rules. */
  lemma RulesMeaning(d: Document, identity: Identity)
    ensures ManifestEncoding.InRange(d) && ValidFor(d, identity) <==> Rules(d, identity)
  {
    if KnownRole(d.role) {
      ImagesMeaning(d);
    }
    TargetsDiffer(d);
    TextRules(d.board);
    TextRules(d.layout);
    TextRules(d.release);
    hide ImageAllowed, ImageRules, ShortText, ManifestEncoding.Printable, ManifestEncoding.ImageInRange;
  }

  lemma TargetsDiffer(d: Document)
    ensures Distinct(Targets(d.images)) <==>
              forall i, j :: 0 <= i < j < |d.images| ==> d.images[i].target != d.images[j].target
  {
    if Distinct(Targets(d.images)) {
      forall i, j | 0 <= i < j < |d.images| ensures d.images[i].target != d.images[j].target {
        assert Targets(d.images)[i] != Targets(d.images)[j];
      }
    }
  }

  // ---------------------------------------------------------------- what is accepted

  /** The prefix of a manifest with its signature, and what the check returns for it. */
  ghost predicate PrefixFor(data: seq<byte>, identity: Identity, verify: Verify, c: Checked, signature: seq<byte>) {
    var d := c.document;
    var document := Spell(DocumentValue(d));
    var size, lengths := 88 + |document|, ImageLengths(d.images);
    && Rules(d, identity)
    && |signature| == 64 && verify(document, signature).None?
    && data == Pack(HeaderFor(|document|, |d.images|, Total(size, lengths))) + document + signature
    && c == Checked(DocumentValue(d), d, Offsets(size, lengths), Total(size, lengths))
  }

  /** The manifest check accepts exactly header, manifest and signature, laid end to end, of a manifest that keeps the
      rules for the device, and returns it with the places of its images. */
  lemma ManifestAccepted(data: seq<byte>, identity: Identity, verify: Verify, c: Checked)
    ensures CheckManifestSpec(data, identity, verify) == Ok(c) <==>
              exists signature :: PrefixFor(data, identity, verify, c, signature)
  {
    hide *;
    if CheckManifestSpec(data, identity, verify) == Ok(c) {
      var signature := AcceptedPrefix(data, identity, verify, c);
    }
    if signature :| PrefixFor(data, identity, verify, c, signature) {
      PrefixChecked(data, identity, verify, c, signature);
    }
  }

  lemma AcceptedPrefix(data: seq<byte>, identity: Identity, verify: Verify, c: Checked) returns (signature: seq<byte>)
    requires CheckManifestSpec(data, identity, verify) == Ok(c)
    ensures PrefixFor(data, identity, verify, c, signature)
  {
    var document, count, total;
    document, signature, count, total := SomePrefix(data, identity, verify, c);
    var v, d := c.manifest, c.document;
    PrefixAccepted(data, verify, v, document, signature, count, total);
    CheckManifestAccepts(data, identity, verify, v, document, signature, count, total);
    ManifestEncoding.TypedBijection(v, d);
    RulesMeaning(d, identity);
    CborProofs.EncodeDocumentMeaning(v, document);
    hide CheckManifestSpec, TypeDocument, DocumentValue, ValidFor, Rules, ManifestEncoding.InRange, EncodeDocument, Spell,
      CborProofs.Documentable, Pack, Unpack, Offsets, Total, ImageOffset;
  }

  lemma SomePrefix(data: seq<byte>, identity: Identity, verify: Verify, c: Checked)
    returns (document: seq<byte>, signature: seq<byte>, count: nat, total: nat)
    requires CheckManifestSpec(data, identity, verify) == Ok(c)
    ensures PrefixOf(data, verify, c.manifest, document, signature, count, total)
  {
    CheckPrefixMeaning(data, verify, c.manifest);
    hide CheckPrefix, TypeDocument, CheckDocument;
    document, signature, count, total :| PrefixOf(data, verify, c.manifest, document, signature, count, total);
  }

  lemma PrefixChecked(data: seq<byte>, identity: Identity, verify: Verify, c: Checked, signature: seq<byte>)
    requires PrefixFor(data, identity, verify, c, signature)
    ensures CheckManifestSpec(data, identity, verify) == Ok(c)
  {
    hide *;
    var d := c.document;
    var v := DocumentValue(d);
    var document := Spell(v);
    var total := Total(88 + |document|, ImageLengths(d.images));
    PrefixParts(data, identity, verify, c, signature);
    RulesMeaning(d, identity);
    ManifestEncoding.TypedBijection(v, d);
    RuledTotal(d, identity);
    PrefixFold(data, identity, verify, c, signature);
    PrefixAccepted(data, verify, v, document, signature, |d.images|, total);
    PrefixSizeIs(document);
    CheckManifestAccepts(data, identity, verify, v, document, signature, |d.images|, total);
  }

  lemma RuledTotal(d: Document, identity: Identity)
    requires Rules(d, identity)
    ensures var v := DocumentValue(d);
            var document := Spell(v);
            var total := Total(88 + |document|, ImageLengths(d.images));
            && EncodeDocument(v) == Ok(document)
            && 1 <= |d.images| <= 3 && ImageOffset(88 + |document|) + |d.images| <= total <= MAX_BUNDLE
  {
    var v := DocumentValue(d);
    hide *;
    RulesMeaning(d, identity);
    ManifestEncoding.TypedBijection(v, d);
    ManifestEncoding.TypedEncodes(v);
    CborProofs.EncodeDocumentMeaning(v, EncodeDocument(v).value);
    DocumentFits(v);
    PrefixSizeIs(Spell(v));
    FewImages(d, identity);
    ValidTotal(d, identity, 88 + |Spell(v)|);
  }

  lemma PrefixParts(data: seq<byte>, identity: Identity, verify: Verify, c: Checked, signature: seq<byte>)
    requires PrefixFor(data, identity, verify, c, signature)
    ensures var d := c.document;
            var document := Spell(DocumentValue(d));
            var size, lengths := 88 + |document|, ImageLengths(d.images);
            Rules(d, identity) && c == Checked(DocumentValue(d), d, Offsets(size, lengths), Total(size, lengths))
  {
    hide Rules, Spell, DocumentValue, Pack, HeaderFor, Total, Offsets, ImageLengths;
  }

  lemma FewImages(d: Document, identity: Identity)
    requires Rules(d, identity)
    ensures 1 <= |d.images| <= 3
  {
    hide ImageRules, ShortText;
  }

  lemma PrefixSizeIs(document: seq<byte>)
    ensures PrefixSize(|document|) == 88 + |document|
    ensures |document| <= MAX_BYTES ==> 88 + |document| <= MAX_PREFIX
    ensures MAX_IMAGES == 3 && SIGNATURE_BYTES == 64
  {
  }

  lemma PrefixFold(data: seq<byte>, identity: Identity, verify: Verify, c: Checked, signature: seq<byte>)
    requires PrefixFor(data, identity, verify, c, signature)
    requires EncodeDocument(DocumentValue(c.document)) == Ok(Spell(DocumentValue(c.document)))
    requires 1 <= |c.document.images| <= 3
    requires ImageOffset(88 + |Spell(DocumentValue(c.document))|) + |c.document.images| <= c.total <= MAX_BUNDLE
    ensures PrefixOf(data, verify, c.manifest, Spell(c.manifest), signature, |c.document.images|, c.total)
  {
    hide EncodeDocument, ImageOffset, Pack, HeaderFor, Rules, Spell, DocumentValue, Total, Offsets, ImageLengths;
  }
}
