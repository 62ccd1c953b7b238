# Verified models of the canview codecs and checkers

This project models the parts of canview whose correctness is an argument rather than a table, and proves that
argument in Dafny 4.11. `dafny verify dfyconfig.toml` checks all of it.

* **The update container** (`tools/ota/`): a bounded deterministic CBOR profile, a 24-byte header, a canonical
  manifest, a 64-byte signature, zero padding to 64 KiB boundaries and one to three images. The checker accepts
  exactly the bytes the assembler can produce, and every accepted byte is accounted for.
* **The ESP-NOW frame codec** (`tools/generate_protocol.py`): field layouts, five payload kinds, TLV streams, role,
  flag, session and fragment policy, and frames sealed by a checksum, over any well-formed schema. Encoding and
  decoding are inverse, and the conditions under which they are not are stated exactly.
* **Independent algorithms**: the prerequisite graph of the plan (`tools/validate_plan.py`), signal extraction and exact
  decimals of the diagnostic page (`ui/diagnostic-web/prototype.js`), the stored-block gzip writer
  (`tools/generate_bridge_web_assets.py`), the C comment stripper (`tools/check_stm32_core.py`) and the flash layout of
  ESP boards (`tools/generate_boards.py`).
* **The diagnostic bridge** (`firmware/diagnostic-bridge/main/`): boot, service loop and shutdown against an arbitrary
  environment.

Code that works step by step in the repository is a method or a class here, with loops, a shared cursor, an output
buffer or arrays written in place, and is proved equal to a function; the theorems are about that function. The theorems
named below hold for all inputs, all schemas that meet the stated well-formedness, and all environments. Acceptance,
refusal and the status of a refusal are stated a second time without the functions that decide them: as tables of
complaints in their order, with every limit, name and bit written out.

## What the models brought to light

* **The boundary between two images is not seen.** `assemble_container` compares bytes, not lengths: exactly the images
  that make the same stream, each but the last padded to 64 KiB, stand in for those the manifest describes, and assemble
  into the very same accepted container (`Container.AssembledAlike`). Zeros can be cut from or added to the end of a
  padded image (`Container.PaddingAbsorbsZeros`), and whole units of arbitrary bytes can stand on either side of a
  boundary (`Container.BoundaryMoves`); for every hash and every verifying signature there are such bundles
  (`ContainerInstances.PaddingHidesByte`, `ContainerInstances.BoundaryHidesUnit`). For images of the declared lengths
  there is no slack (`Container.AssembledAsDeclared`).
* **No typed manifest is too large**: whatever passes the typed walk stays below every limit of the CBOR encoder
  (`ManifestEncoding.TypedEncodes`), so that a genuine manifest with its images always assembles
  (`ContainerInstances.GenuineAssembles`).
* **The assembler's last size test cannot fire**: one to three images within the image limit always fit the bundle limit
  (`Envelope.BundleFits`).
* **A header priority other than the message's** is accepted by `encode_frame`, whatever byte it is
  (`FrameAsymmetry.AnyPriorityEncodes`), and refused by `decode_frame` (`FrameAsymmetry.WrongPriorityRefused`); with the
  message's priority the frame decodes (`FrameRoundTrip.EncodeThenDecode`).
* **Another minor version, and a pre-session message under a non-zero session context,** are accepted by `decode_frame`
  (`FrameAsymmetry.AnyMinorAccepted`, `FrameAsymmetry.AnySessionAccepted`) but not rebuilt by `encode_frame`
  (`FrameAsymmetry.OtherMinorNotRebuilt`); every other accepted frame is (`FrameRoundTrip.DecodeThenEncode`).
  `FrameAsymmetry.PingFrame` is one frame of which all this is true.
* **Variants of equal size** are legal for the schema validator, but decoding picks the first of its size, and names it
  (`PayloadProofs.FirstOfItsSize`, with `PayloadCodec.TwinVariantsConfused` as an instance).
* **A non-zero value for a reserved field** is encoded, whatever value it is, and refused on decoding
  (`Layout.ReservedRefused`); without one, what is encoded decodes (`Layout.DecodeEncoded`).
* **A restart during startup leaves the credentials in memory.** The buffers are wiped unless the run restarts before its
  service loop (`BridgeLifecycle.Bridge.AppMain`), which happens exactly when the device boots and hands out its
  credentials, refuses the web shell or the watchdog, and refuses to stop the web shell twice
  (`BridgeLifecycle.StartupRestarts`). `BridgeLifecycle.SecretsSurvive` is such a run, with secret bytes in both buffers
  at its end.

## Modules

| modules | subject |
|---|---|
| Prelude, Utf8 | bytes, results, fixed-width integers, sorted keys; the strict UTF-8 codec |
| Complaints | ordered complaints, of which the first one counts |
| Cbor, CborProofs, CborMachine | the CBOR profile, its theorems, and the recursions with their shared state |
| CborErrors, CborEncodeErrors | which status a refused document or value gets |
| Envelope, Manifest, ManifestEncoding | header and placement, the typed manifest walk, typed views against documents |
| ManifestRules, ManifestErrors, ContainerErrors | the rules of a manifest written out, and which status a refused manifest or container gets |
| Container, ContainerInstances | the whole container, what it accepts and two-image bundles |
| ManifestJson, ManifestLoading, ManifestLoadErrors | the JSON loader, the JSON it accepts, and which status any other gets |
| Layout, Tlv, Payload, PayloadProofs, PayloadCodec | field layouts, TLV streams, the five payload kinds |
| LayoutErrors, TlvErrors, PayloadErrors | which code refused fields, streams and payloads get, and how accepted ones are read |
| Flags, Frame, FrameAccess, CurrentHeader | roles and flags, the frame codec, which frames it lets through, the shipped header |
| FrameProofs, FrameRoundTrip, FrameAsymmetry | sealed headers, the round trips, and what one side accepts and the other refuses |
| TaskGraph, TaskGraphMachine | cycles in the plan, and the loops that find them |
| Decimal, CanBits | exact decimals, bit walks and signal values |
| StoredGzip, CommentStrip, Partitions, BridgeLifecycle | one subject each, as named |

## Model

| member | source | states |
|---|---|---|
| CborProofs.DocumentBijection | tools/ota/cbor.py:28-152 | `decode_document` accepts `data` as `v` if and only if `encode_document` accepts `v` as `data`: one accepted spelling per value, and the item, depth, container and byte limits of both recursions agree |
| CborProofs.DecodeDocumentMeaning | tools/ota/cbor.py:28-96 | the decoder accepts exactly the minimal-head, increasing-key spellings of values within every limit, and nothing behind them |
| CborProofs.EncodeDocumentMeaning | tools/ota/cbor.py:99-152 | the encoder accepts exactly the values within every limit, and writes their one spelling |
| CborProofs.TruncationIncomplete | tools/ota/cbor.py:39-77 | every strict prefix of an accepted document is refused as incomplete |
| CborProofs.ExtensionMalformed | tools/ota/cbor.py:93-96 | every proper extension of an accepted document is refused: as malformed within 16 KiB, as oversize beyond |
| CborProofs.SpellPrefixFree | tools/ota/cbor.py:37-91 | no item's spelling is a prefix of another's: two spellings followed by anything are equal only if the values and the rests are |
| CborProofs.DecodeItemComplete | tools/ota/cbor.py:37-91 | an item decode consumes exactly its own spelling, whatever follows it, and counts exactly its items |
| CborProofs.DecodeItemSound | tools/ota/cbor.py:37-91 | an accepted item is a value that fits its depth, and the bytes consumed are its spelling |
| CborProofs.KeyOrder | tools/ota/cbor.py:84-91 | increasing integer keys are exactly the bytewise order of their encoded forms that section 4.2.1 of RFC 8949 demands |
| CborProofs.ReadHeadSound | tools/ota/cbor.py:43-59 | an accepted head is the minimal spelling of its major type and argument, and of a known major type |
| CborProofs.ReadHeadComplete | tools/ota/cbor.py:43-59 | every minimal head of a known major type is accepted |
| CborErrors.HeadBytes | tools/ota/cbor.py:43-59 | a head is its first byte, and one, two, four or eight bytes of argument exactly when the argument needs them |
| CborErrors.DocumentRefused | tools/ota/cbor.py:28-96 | a document is refused, and with this status, exactly when it is too long, has bytes behind its item, or the first item that is not acceptable where it stands offends for this reason: missing bytes, a head that is reserved, not minimal or of an unknown major type, bad UTF-8, a key of another kind, a repeated or a falling key, or a depth, item, size or container limit |
| CborErrors.KeyOrderRefused | tools/ota/cbor.py:84-91 | behind fitting entries with increasing keys, one further key is refused as a duplicate when it equals the last one and as malformed when it is smaller, whatever follows |
| CborEncodeErrors.ValueRefused | tools/ota/cbor.py:99-152 | a value is not encoded, for this status, exactly when the first part that cannot be written, on the way the encoder takes, cannot be for this reason, or the output is too long |
| CborMachine.Decode | tools/ota/cbor.py:28-96 | the nested recursion with its shared offset and item counter computes the decoder the theorems are about, error for error |
| CborMachine.Encode | tools/ota/cbor.py:99-152 | the recursion that appends to one shared output computes the encoder the theorems are about, error for error |
| CborMachine.Decoder.Item | tools/ota/cbor.py:37-91 | one recursive call moves the shared offset and counter exactly as the item function says, and leaves the data alone |
| CborMachine.Encoder.Item | tools/ota/cbor.py:114-147 | one recursive call extends the shared output and counter exactly as the item function says |
| Utf8.CodecBijection | tools/ota/cbor.py:74-77 | strict UTF-8 decoding and encoding of text items are inverse partial functions |
| Utf8.CharMeaning | tools/ota/cbor.py:74-77 | one to four bytes for a character, by the table of section 3 of RFC 3629 |
| Utf8.EncodeMeaning | tools/ota/cbor.py:121-129 | a text is encoded character by character, unless one of them is a surrogate |
| Envelope.HeaderRoundTrip | tools/ota/envelope.py:8-48 | the 24 header bytes and the seven header fields determine each other on the ranges of the fields |
| Envelope.HeaderBytes | tools/ota/envelope.py:8-49 | the 24 header bytes, one by one: the magic `CVOTA002`, and version, sizes, count and total with their lowest bytes first |
| Envelope.OffsetsTile | tools/ota/envelope.py:18-42 | image ranges are 64 KiB aligned, follow one another without overlap, with less than one unit of padding between, and end at the total |
| Envelope.TotalBound | tools/ota/envelope.py:38-44 | the total is bounded by the start plus, for each image, the longest image and one alignment unit |
| Envelope.BundleFits | tools/ota/envelope.py:12-44 | one to three images within the image limit stay within the bundle limit, so the last size test of the assembler never fires |
| Envelope.Assemble | tools/ota/envelope.py:23-49 | the loop over the images produces the container of manifest, signature and padded images, with the same errors in the same order |
| Envelope.AssembleMeaning | tools/ota/envelope.py:23-49 | the assembler succeeds exactly for one to three non-empty images within the limit, an encodable manifest and a 64-byte signature, and then writes their container |
| Envelope.CheckPrefixMeaning | tools/ota/envelope.py:62-87 | the prefix check accepts exactly header, canonical document and verifying signature laid end to end, with a possible count and total |
| Envelope.PrefixAccepted | tools/ota/envelope.py:52-87 | such a prefix has the length that `prefix_length` reads from its header, and both checks accept it |
| Manifest.CheckManifest | tools/ota/manifest.py:42-131 | the typed walk with its offset, seen targets and seen pairs computes the manifest check the theorems are about, error for error |
| Manifest.DocumentTyped | tools/ota/manifest.py:49-96 | the typed walk with its loops over images and pairs computes the function the theorems are about, error for error |
| Manifest.CheckImagesMeaning | tools/ota/manifest.py:105-121 | the image loop succeeds exactly when every image is allowed and no target repeats, and then yields the offsets and total the assembler uses |
| Manifest.CheckPairsMeaning | tools/ota/manifest.py:122-128 | the pair loop succeeds exactly when every pair is in both ranges and none repeats |
| Manifest.CheckDocumentMeaning | tools/ota/manifest.py:97-131 | a typed manifest is accepted exactly when it is valid for the identity, the count is right and the total is the assembler's |
| Manifest.CheckManifestAccepts | tools/ota/manifest.py:42-131 | for an accepted prefix, the manifest check succeeds exactly for a typed, valid manifest whose announced count and total are right |
| Manifest.ValidTotal | tools/ota/manifest.py:105-131 | a valid manifest leads to a total that the header check admits and the bundle limit covers |
| Manifest.TypedViewFaithful | tools/ota/manifest.py:49-96 | a manifest that passes the typed walk is the one its typed view spells: no field is dropped, added or confused |
| ManifestEncoding.TypedBijection | tools/ota/manifest.py:49-96 | the typed walk accepts a value as `d` if and only if it is the dict that spells `d` and every field of `d` is in its range |
| ManifestEncoding.DocumentEntries | tools/ota/manifest.py:49-97 | which field of a manifest stands under which of its twelve keys |
| ManifestEncoding.ImageEntries | tools/ota/manifest.py:62-73 | which field of an image stands under which of its seven keys |
| ManifestEncoding.TypedEncodes | tools/ota/manifest.py:49-96 | every manifest that passes the typed walk is within the byte, item, depth and container limits of the encoder |
| ManifestRules.RulesMeaning | tools/ota/manifest.py:7-131 | the manifests that are in range and valid for a device are those that keep the rules written out: targets 1 and 2, 3, or 4 for the roles, image limits of 4194304, 184320, 4194304 and 2621440 bytes, signature 2 and the STM range for target 2, signature 1 and the ESP range for the others, texts, pairs and versions |
| ManifestRules.ManifestAccepted | tools/ota/manifest.py:42-131 | the manifest check accepts exactly header, document and verifying signature of a manifest that keeps these rules, and returns it with the 64 KiB aligned places of its images |
| ManifestErrors.WalkComplains | tools/ota/manifest.py:13-96 | the typed walk refuses a value with the status of its first complaint, over the dict of integer keys, key by key with every limit |
| ManifestErrors.CrossComplains | tools/ota/manifest.py:97-131 | the cross checks refuse a typed manifest with the status of their first complaint: identity, counts and versions, pairs, image by image, pair by pair, total |
| ManifestErrors.PrefixComplains | tools/ota/envelope.py:62-87 | a prefix is refused with the status of its first complaint: length, magic, version, sizes, count, total, document, signature |
| ManifestErrors.ManifestComplains | tools/ota/manifest.py:42-131 | the manifest check refuses with the first complaint of prefix, typed walk and cross checks, in this order |
| Container.CheckContainer | tools/ota/container.py:38-61 | the loop over images with its `previous` cursor computes the container check the theorems are about |
| Container.AssembleContainer | tools/ota/container.py:64-75 | assembling and re-checking computes the function the theorems are about |
| Container.CanonicalContainer | tools/ota/container.py:49-75 | assembling the manifest, image slices and signature of any accepted container gives back exactly its bytes |
| Container.CheckedIsContainer | tools/ota/container.py:49-61 | in an accepted container header, document, signature, padding and images account for every byte, and every digest matches |
| Container.CheckAcceptsContainer | tools/ota/container.py:38-61 | the container of a valid manifest, matching images and a verifying signature is accepted, with its manifest and offsets |
| Container.CheckerAcceptsExactlyAssembled | tools/ota/container.py:38-75 | the checker accepts exactly the bytes the assembler can produce |
| Container.AssembleContainerMeaning | tools/ota/container.py:64-75 | the assembler succeeds exactly for well-sized images that lay out to the same bytes as some images the manifest describes |
| Container.AssembledAsDeclared | tools/ota/container.py:64-75 | for images of the declared lengths, assembling succeeds exactly when they are images the manifest describes |
| Container.LaidOutMeaning | tools/ota/envelope.py:23-49 | two lists of images lay out alike, behind any manifest, exactly when they are as many and make the same stream of padded images |
| Container.AssembledAlike | tools/ota/container.py:64-75 | in place of images the manifest describes, exactly well-sized images, as many, with the same stream are assembled, to the same bytes |
| Container.PaddingAbsorbsZeros | tools/ota/container.py:53-75 | a first image with zeros cut from or added to its end, inside its padding, assembles into the same accepted container |
| Container.BoundaryMoves | tools/ota/container.py:53-75 | units of 64 KiB that stand at the end of the first image or at the start of the second assemble into the same accepted container |
| Container.ContainerDetermines | tools/ota/container.py:64-75 | the bytes of a container determine its manifest, its signature and the layout of its images |
| ContainerErrors.ContainerComplains | tools/ota/container.py:38-61 | a container is refused with the status of its first complaint: bundle limit, prefix, manifest, total length, and image by image padding and digest |
| ContainerErrors.AssembleComplains | tools/ota/envelope.py:23-49 | the assembler refuses with the status of its first complaint: number of images, an empty one, a long one, the manifest, the signature |
| ContainerErrors.AssembleContainerComplains | tools/ota/container.py:64-75 | likewise with the signature first and the container check last |
| ContainerInstances.AcceptableMeaning | tools/ota/container.py:38-61 | a manifest, images and a signature belong together exactly when the manifest spells fields in range that are valid for the device, lengths and digests are the images', and the signature verifies over the spelling |
| ContainerInstances.GenuineAssembles | tools/ota/container.py:64-75 | every such combination is assembled into the container of its spelling, and that is accepted as the manifest it came from |
| ContainerInstances.PaddingHidesByte | tools/ota/container.py:64-75 | for any 32-byte hash and verifying signature, a two-image bundle is assembled to the same accepted bytes from its images and from images of which the first has a zero byte too many |
| ContainerInstances.BoundaryHidesUnit | tools/ota/container.py:64-75 | likewise from its images and from images between which a unit of non-zero bytes has changed sides |
| ManifestJson.Fields | tools/ota/manifest_json.py:32-43 | the loop over schema properties fills the entries of the typed dict, and fails exactly as the function it is proved against |
| ManifestJson.Load | tools/ota/manifest_json.py:64-83 | the loader with its replaced entries and running total computes the function the theorems are about |
| ManifestJson.TotalsAgree | tools/ota/manifest_json.py:70-77 | the loader's running total is the assembler's and the checker's for the same lengths |
| ManifestJson.LoadMeaning | tools/ota/manifest_json.py:64-83 | a manifest is loaded exactly when it has the schema's shape, passes the typed walk, and is valid for the identity it claims; no limit of the encoder can refuse it |
| ManifestJson.LoadedManifestPasses | tools/ota/manifest_json.py:69-83 | a loaded manifest assembled with images of its declared lengths and an accepted signature always passes the manifest check, with the assembler's total |
| ManifestLoading.HexMeaning | tools/ota/manifest_json.py:38-42 | a hex string is read as exactly the bytes that it prints, high digit first, in lower case |
| ManifestLoading.ShapeMeaning | tools/ota/manifest_json.py:32-68 | a JSON value is shaped into the dict of a manifest exactly when it is the JSON of that manifest, every property under its name |
| ManifestLoading.LoadBijection | tools/ota/manifest_json.py:46-83 | the loader accepts exactly the JSON of the manifests that keep the rules for the identity they claim, and returns the dict that spells the manifest |
| ManifestLoadErrors.ObjectValue | tools/ota/manifest_json.py:23-29 | an object inside a JSON manifest has string keys: only an empty one can pass for a dict of integer keys |
| ManifestLoadErrors.LoadComplains | tools/ota/manifest_json.py:32-83 | the loader refuses with the status of its first complaint: properties and hex strings, the encoder, target and length of an image, typed walk, cross checks |
| Layout.ValidateFields | tools/generate_protocol.py:190-219 | the loop with its cursor and name sets accepts exactly the layouts: contiguous from 0 to the size, with distinct, well-formed names |
| Layout.FieldsTile | tools/generate_protocol.py:190-219 | the fields of a layout partition its bytes: each position in exactly one field, none outside |
| Layout.ScalarRoundTrip | tools/generate_protocol.py:1862-1866 | packing and unpacking a scalar are inverse exactly on the range of its width and sign |
| LayoutErrors.ScalarMeaning | tools/generate_protocol.py:1886 | a scalar is its bytes with the lowest first, less the range when it is signed and its last byte is 128 or more |
| LayoutErrors.SliceInside | tools/generate_protocol.py:1877-1881 | the slice of a field is whole exactly when the data reach to its end, and then is its bytes |
| LayoutErrors.FieldEncodes | tools/generate_protocol.py:1831-1870 | a field is given a number in the range of its type or exactly as many bytes as it has; nothing is zeros, for reserved fields only |
| LayoutErrors.FieldsComplain | tools/generate_protocol.py:1873-1891 | a record is refused with the code of the first field that is of no known type, cut off, or reserved and not zero |
| LayoutErrors.LayoutMeaning | tools/generate_protocol.py:190-219 | a layout is fields of known types, each starting where the one before ends, up to the size, with well-spelled names and C names, none twice, and reserved fields that say so |
| LayoutErrors.IdentifierMeaning | tools/generate_protocol.py:53 | a name is letters, digits and underscores, and begins with no digit |
| LayoutErrors.CNameMeaning | tools/generate_protocol.py:175-182 | a field is called by its C name, or by its name, with `_le` when it has several bytes |
| LayoutErrors.ReservedMeaning | tools/generate_protocol.py:214-215 | a reserved name begins with `reserved`, in whichever case |
| Layout.FieldRoundTrip | tools/generate_protocol.py:1848-1891 | one field: decoding then encoding gives the bytes, encoding then decoding the value or its default |
| Layout.EncodeIntoBuffer | tools/generate_protocol.py:1848-1870 | the slice writes into one zeroed buffer never clobber each other: together they spell the fields in order |
| Layout.DecodeSlices | tools/generate_protocol.py:1873-1891 | the decoding loop computes the function the theorems are about, error for error, for any offsets, negative ones included |
| Layout.DecodeEncoded | tools/generate_protocol.py:1848-1891 | whatever is encoded decodes to its normal form, unless a reserved field was given a non-zero value: then it is refused |
| Layout.EncodeDecoded | tools/generate_protocol.py:1848-1891 | whatever decodes is encoded again to the same bytes, strangers in the record notwithstanding |
| Layout.LayoutBijection | tools/generate_protocol.py:1848-1891 | on a valid layout decoding and encoding are mutual inverses: records of exactly its fields, in range, with zero reserved fields, against `size` bytes |
| Layout.ReservedRefused | tools/generate_protocol.py:1848-1891 | in any record that encodes, a reserved field can be given any non-zero value of its type: it is encoded, and the bytes are refused |
| Tlv.Decode | tools/generate_protocol.py:2263-2289 | the loop with its cursor and seen singletons computes the stream decoder the theorems are about, error for error |
| Tlv.TlvBijection | tools/generate_protocol.py:2263-2289 | a stream is accepted as `entries` exactly when they concatenate to it, unknown types are non-critical, sizes are right and no two singletons share a base type |
| Tlv.UnknownAppended | tools/generate_protocol.py:2263-2289 | appending an unknown non-critical entry keeps a stream acceptable and adds exactly that entry |
| Tlv.UnknownCriticalRejected | tools/generate_protocol.py:2275-2278 | a stream with an unknown critical entry anywhere is refused |
| Tlv.SerializationInjective | tools/generate_protocol.py:2246-2254 | two lists of entries that serialise to the same bytes are equal |
| TlvErrors.SerializeMeaning | tools/generate_protocol.py:2253-2254 | an entry is two bytes of type, two of length, lowest first, and its value |
| TlvErrors.StreamRefused | tools/generate_protocol.py:2263-2289 | a stream is refused, and with this code, exactly when it is acceptable entries and a next one that is cut off, unknown and critical, a singleton whose base type has come before, or of the wrong size |
| Payload.VariantWithinBounds | tools/generate_protocol.py:1811-1828 | every variant's size lies between the bounds of its message |
| PayloadErrors.BoundsReached | tools/generate_protocol.py:1811-1828 | both bounds are the size of some variant |
| PayloadCodec.EncodePayload | tools/generate_protocol.py:2180-2260 | the five branches with their record and entry loops compute the encoder the theorems are about |
| PayloadCodec.DecodePayload | tools/generate_protocol.py:2292-2353 | the five branches with their record loop and cursor compute the decoder the theorems are about, error for error |
| PayloadCodec.ReadRecords | tools/generate_protocol.py:2321-2326 | the record loop reads exactly the records of the function it is proved against, each from its own slice |
| PayloadCodec.AppendRecords | tools/generate_protocol.py:2216-2220 | the record loop appends the records' bytes in order, or fails when one cannot be encoded |
| PayloadCodec.AppendEntries | tools/generate_protocol.py:2249-2254 | the entry loop appends the serialised entries in order, or fails when one does not fit its 16-bit heads |
| PayloadProofs.EncodeDecodedShape | tools/generate_protocol.py:2180-2353 | for all five kinds, every decoded payload is encoded again to the same bytes |
| PayloadProofs.DecodeEncodedShape | tools/generate_protocol.py:2180-2353 | for all five kinds, an encoded payload decodes to its normal form if and only if reserved fields are zero, the variant is the first of its size and the suffix length field is right |
| PayloadProofs.RecordsDecoded | tools/generate_protocol.py:2321-2326 | decoded records are as many as announced and encode to the bytes they were read from |
| PayloadProofs.RecordsEncoded | tools/generate_protocol.py:2216-2220 | encoded records take their size each and decode to their normal forms, or are refused for a reserved field |
| PayloadCodec.EncodeDecodedPayload | tools/generate_protocol.py:2180-2353 | the same for `decode_payload` and `encode_payload` with any semantic policy between them |
| PayloadCodec.DecodeEncodedPayload | tools/generate_protocol.py:2180-2353 | whatever `encode_payload` accepts decodes to its normal form exactly when it is recoverable and the semantic policy accepts the normal form |
| PayloadProofs.FirstOfItsSize | tools/generate_protocol.py:2304-2311 | whatever is encoded as one variant decodes as the first variant of its size, with that variant's fields and name; if that is another one, the name is another |
| PayloadCodec.TwinVariantsConfused | tools/generate_protocol.py:2304-2311 | one schema where this happens: `down`, the second of two one-byte variants, decodes as `up` |
| PayloadErrors.FixedDecided | tools/generate_protocol.py:2294-2303 | a fixed payload has its size and acceptable fields; else the code of the first complaint |
| PayloadErrors.VariantUnknown | tools/generate_protocol.py:2294-2312 | a payload of no variant's size is refused for its length |
| PayloadErrors.VariantDecided | tools/generate_protocol.py:2304-2311 | any other is decided by the fields of the first variant of its size, and carries its name |
| PayloadErrors.BoundedDecided | tools/generate_protocol.py:2312-2329 | a bounded payload is a prefix and exactly the announced records; else the code of the first complaint: length, prefix, count, length, record by record |
| PayloadErrors.SuffixDecided | tools/generate_protocol.py:2330-2346 | a payload with a suffix is a prefix and bytes of the length that its first length field announces, entries if it is a command; else the code of the first complaint |
| PayloadErrors.TlvsDecided | tools/generate_protocol.py:2347-2352 | a payload with entries is a prefix and an acceptable stream; else the code of the first complaint |
| PayloadErrors.PayloadDecided | tools/generate_protocol.py:2292-2353 | the semantic policy has the last word on a payload that decodes |
| PayloadErrors.PayloadEncoded | tools/generate_protocol.py:2180-2260 | a payload is encoded, and as these bytes, exactly when the semantic policy accepts it and the bytes spell it, kind by kind: fields, the first variant of the name, the counted records, a suffix of at most the longest length that no length field contradicts, a stream that decodes |
| PayloadErrors.ShapeMeaning | tools/generate_protocol.py:1040-1088 | the payload shapes that the schema validator admits: whole layouts within 208 bytes, an unsigned count field of at most four bytes |
| Flags.AllowedFrameFlags | tools/generate_protocol.py:2381-2401 | the flag by flag construction allows exactly the flags of the message, its variant and its senders |
| Flags.FlagsDetermined | tools/generate_protocol.py:2381-2487 | exactly one flags byte passes all flag and fragment checks when the fragment position is valid and a read-only sender meets a message some read-only role may send; none passes otherwise |
| Flags.PassesMeaning | tools/generate_protocol.py:2381-2487 | a flags byte passes exactly when bit by bit it says what it should: acknowledgement, response, error, fragment, last fragment for the index one below the total, broadcast, read-only sender; and no eighth bit is set |
| Flags.FlagsComplain | tools/generate_protocol.py:2404-2457 | the code that refuses a flags byte: bad flags, a missing sender, a sender that is not read-only |
| Flags.BitsWord | tools/generate_protocol.py:2416-2452 | the seven known bits and the flags byte determine each other |
| Flags.PermittedSenderFlaggable | tools/generate_protocol.py:2360-2401 | a sender that the message or its variant permits can always be flagged |
| Frame.EncodeFrame | tools/generate_protocol.py:2508-2599 | the checks in source order, and the header written twice around its checksum, compute the encoder the theorems are about |
| Frame.DecodeFrame | tools/generate_protocol.py:2609-2718 | the checks in source order compute the decoder the theorems are about, error for error, for every schema whose payload layouts the validator accepts |
| Frame.MessageFound | tools/generate_protocol.py:2644-2646 | the message found has the identifier; none is found only if no message has it |
| FrameAccess.RolesMeaning | tools/generate_protocol.py:2360-2369 | a role may send or receive by the first variant policy of this message and variant, or by the message when there is none |
| FrameAccess.FrameRefused | tools/generate_protocol.py:2619-2646 | a frame whose message is not known is refused with the code of its first complaint: length, header fields, magic, major version, header length, flags, priority, payload length, checksum, message |
| FrameAccess.FrameDecided | tools/generate_protocol.py:2647-2718 | any other frame is refused with the code of its first complaint: context, priority, payload, flags, correlation, session, sender, receiver, link state, semantic policy, fragment, command session |
| FrameAccess.FrameAccepted | tools/generate_protocol.py:2609-2718 | a frame is accepted, and as this, exactly when its header is read by name and sound, its message is the first of its number, its payload decodes, sender, receiver and link state are permitted, a response names its request, the session is the one its message demands of the link, and flags and policy agree |
| FrameAccess.FrameEncoded | tools/generate_protocol.py:2508-2599 | a frame is encoded, and as these bytes, exactly when peers, state, session, flags and policy permit it, and the bytes are the header, each entry under its name, with the checksum of the frame whose checksum is zero, and the payload |
| FrameAccess.WellFormedMeaning | tools/generate_protocol.py:459-557 | the schemas that the round trips are about, with every condition on header, shapes, priorities, variants, sessions and numbers |
| CurrentHeader.CurrentHeaderOk | protocol/schema/espnow-v1.3.yaml:28-46 | the header layout of the shipped schema is well-formed, so the frame theorems apply to it |
| FrameProofs.HeaderBijection | tools/generate_protocol.py:2356-2357 | the 32 header bytes and the header determine each other, for a zero reserved field |
| FrameProofs.SealSplit | tools/generate_protocol.py:2596-2599 | whatever the checksum, the other 28 header bytes are the same, so zeroing the field in the frame is encoding it as zero |
| FrameProofs.SealedDecodes | tools/generate_protocol.py:2596-2643 | a sealed frame decodes to its header, and its checksum is that of the frame with the field zeroed |
| FrameProofs.SealedAgain | tools/generate_protocol.py:2596-2643 | a header read from a frame with the right checksum seals the same frame again |
| FrameRoundTrip.EncodeThenDecode | tools/generate_protocol.py:2508-2718 | whatever `encode_frame` produces decodes, under the same context, to the given header and the normal form of its payload, unless the header was given another priority than the message's: then it is refused as such |
| FrameRoundTrip.DecodeThenEncode | tools/generate_protocol.py:2508-2718 | every accepted frame is rebuilt byte for byte under the same context if and only if it carries the current minor version and, for a pre-session message, the context has session zero |
| FrameAsymmetry.AnyPriorityEncodes | tools/generate_protocol.py:2508-2599 | whatever can be encoded can be encoded with any priority that the header field holds |
| FrameAsymmetry.WrongPriorityRefused | tools/generate_protocol.py:2508-2718 | encoded with another priority than the message's, it is refused for that priority |
| FrameAsymmetry.AnyMinorAccepted | tools/generate_protocol.py:2609-2718 | an accepted frame whose minor version is replaced and whose checksum is recomputed is accepted with the same message and payload |
| FrameAsymmetry.OtherMinorNotRebuilt | tools/generate_protocol.py:2508-2718 | from every accepted frame there is an accepted one of any other minor version, which the encoder does not rebuild |
| FrameAsymmetry.AnySessionAccepted | tools/generate_protocol.py:2508-2718 | an accepted frame of a pre-session message without authentication is accepted alike under every session; under a non-zero one the encoder does not rebuild it |
| FrameAsymmetry.PingFrame | tools/generate_protocol.py:2508-2718 | one schema with the shipped header, and one frame that is encoded and accepted, to which the five lemmas above apply |
| FrameRoundTrip.SentVariant | tools/generate_protocol.py:2526-2546 | the variant that decodes gets the roles and response policy of the variant that was asked for |
| TaskGraphMachine.CheckGraph | tools/validate_plan.py:130-159 | the three phases leave exactly the local complaints in order, and then, if a task waits for a cycle, one complaint listing all that do, sorted |
| TaskGraphMachine.CheckTasks | tools/validate_plan.py:131-138 | the loops over tasks and prerequisites complain about each edge in order |
| TaskGraph.EdgeComplaint | tools/validate_plan.py:131-138 | one prerequisite is complained about when it is the task itself, is missing, or is not done while the task is ready or done |
| TaskGraph.LocalErrorsJoin | tools/validate_plan.py:131-138 | the complaints about tasks come one after another in the order of the tasks |
| TaskGraph.TaskErrorsJoin | tools/validate_plan.py:132-138 | and those about a task in the order of its list |
| TaskGraphMachine.CountEdges | tools/validate_plan.py:141-147 | after counting, every degree is the number of distinct known prerequisites, and every list names each waiting task once, self-edges and duplicates included |
| TaskGraphMachine.Drain | tools/validate_plan.py:148-158 | the loop ends, pops no task twice and none before its prerequisites; the tasks left with a count are exactly those that wait for a cycle, and every task is visited exactly when there is none |
| TaskGraphMachine.CycleReported | tools/validate_plan.py:157-159 | a cycle is reported if and only if there is one, and the report lists, in order, exactly the tasks that wait for a cycle |
| TaskGraph.UnsortedIsBlocked | tools/validate_plan.py:150-159 | when nothing more can be popped, the tasks left over are exactly those with a chain of prerequisites that comes back on itself |
| TaskGraph.BlockedMeansCycle | tools/validate_plan.py:157-159 | some task waits for a cycle exactly when the graph has one |
| Decimal.PrintReads | ui/diagnostic-web/prototype.js:253-256 | a printed amount denotes exactly that amount of millionths, whatever its size and sign |
| Decimal.PrintParses | ui/diagnostic-web/prototype.js:210-217 | reading a printed amount back with `decimal` gives the same amount up to a million, and is refused beyond |
| Decimal.ParseMeaning | ui/diagnostic-web/prototype.js:210-217 | a text is read, and as this amount, exactly when it spells it with a sign or none, one to seven digits, and up to six behind a point, and the amount does not exceed a million |
| Decimal.PrintCanonical | ui/diagnostic-web/prototype.js:253-256 | an amount is printed in one way: a sign for a negative one only, no zero in front of the whole part, none at the end of the fraction, no point without a fraction |
| Decimal.DigitsRoundTrip | ui/diagnostic-web/prototype.js:214-216 | the digits printed for a number denote it |
| CanBits.WalkMeaning | ui/diagnostic-web/prototype.js:227-233 | a descriptor is accepted exactly when its last bit is inside the payload; then its bits are pairwise distinct, inside, and consecutive on the line of their order |
| CanBits.WalkBits | ui/diagnostic-web/prototype.js:227-233 | the loop that pushes bits computes that walk |
| CanBits.GatherBits | ui/diagnostic-web/prototype.js:245-251 | the loop over the bits accumulates the raw number of either order |
| CanBits.GatherSum | ui/diagnostic-web/prototype.js:247-251 | no digit meets another: the raw number stays below `2^length`, and each `or` is the sum of its sides |
| CanBits.GatherIntel | ui/diagnostic-web/prototype.js:246-250 | the Intel walk reads `(little-endian number >> start) mod 2^n` |
| CanBits.GatherMotorola | ui/diagnostic-web/prototype.js:246-251 | the Motorola walk reads the same shift and mask from the big-endian number |
| CanBits.GatherMeaning | ui/diagnostic-web/prototype.js:218-251 | in both orders the raw number is the payload's number divided by a power of two, modulo `2^length` |
| CanBits.SignedMeaning | ui/diagnostic-web/prototype.js:252 | a signed result is the only number of `[-2^(n-1), 2^(n-1))` that agrees with the raw number modulo `2^n` |
| CanBits.Descriptor | ui/diagnostic-web/prototype.js:77-244 | a descriptor is built exactly for a valid frame, valid choices, a fitting range and an admissible scale, and holds the bits and the scale |
| CanBits.DescriptorMeaning | ui/diagnostic-web/prototype.js:77-244 | the accepted descriptors with every limit: bus, identifier of 11 or 29 bits, payload length, start, length, order, sign, last bit, factor, offset, unit |
| CanBits.Decode | ui/diagnostic-web/prototype.js:245-257 | the value is the printed decimal of `raw * factor + offset` |
| CanBits.Show | ui/diagnostic-web/prototype.js:210-257 | the page shows the shifted and masked number of the payload, in two's complement if signed, and a decimal that denotes `raw * factor + offset` exactly |
| StoredGzip.WriteGzip | tools/generate_bridge_web_assets.py:13-29 | the block loop writes header, stored blocks and trailer of the source, empty or not |
| StoredGzip.MemberBytes | tools/generate_bridge_web_assets.py:9-26 | the header has no time, name or system, and the source follows in blocks of 65535 bytes |
| StoredGzip.BlockBytes | tools/generate_bridge_web_assets.py:19-26 | a block is its mark, two bytes of length, lowest first, the complement of each, and its data |
| StoredGzip.GzipRoundTrip | tools/generate_bridge_web_assets.py:13-29 | a reader of stored blocks (section 3.2.4 of RFC 1951) in a gzip member (section 2.3 of RFC 1952) returns the source; the output has 18 bytes and 5 for each block more |
| StoredGzip.StoredReads | tools/generate_bridge_web_assets.py:16-26 | the written blocks are read back as the cut of the source, each with LEN and its complement, whatever follows |
| StoredGzip.CutShape | tools/generate_bridge_web_assets.py:19-26 | only the last block is final, every other is full, and there are as many as needed, one for an empty source |
| CommentStrip.StripComments | tools/check_stm32_core.py:101-154 | the five-state loop computes the scan the theorems are about |
| CommentStrip.StripMeaning | tools/check_stm32_core.py:101-154 | the text is a sequence of plain characters, literals and comments, and stripping copies the first two unchanged and replaces the last |
| CommentStrip.PieceBegins | tools/check_stm32_core.py:109-124 | two slashes begin a line comment, slash and star a block comment, and a single or double quote a literal |
| CommentStrip.LineEnds | tools/check_stm32_core.py:125-132 | a line comment goes up to the next CR or LF |
| CommentStrip.BlockEnds | tools/check_stm32_core.py:133-144 | a block comment goes up to and with the first closing mark behind its opening one |
| CommentStrip.LiteralEnds | tools/check_stm32_core.py:145-153 | a literal goes up to and with the first quote of its kind with an even number of backslashes before it |
| CommentStrip.LineLeaves | tools/check_stm32_core.py:110-132 | a line comment leaves one blank for its mark, and one for every character behind it |
| CommentStrip.BlockLeaves | tools/check_stm32_core.py:115-144 | a block comment leaves one blank for each mark, and for every character between them a blank, or the line end that it is |
| CommentStrip.CommentsVanish | tools/check_stm32_core.py:113-142 | nothing of a comment is left but blanks and line ends |
| CommentStrip.StripKeepsLines | tools/check_stm32_core.py:101-154 | stripping keeps the exact sequence of CR and LF and never lengthens the text |
| CommentStrip.StripIdempotent | tools/check_stm32_core.py:101-154 | stripping twice is stripping once |
| CommentStrip.NoCommentLeft | tools/check_stm32_core.py:101-154 | a stripped text, read as C again, has no comment: a second scan never enters one |
| Partitions.ValidateLayout | tools/generate_boards.py:65-87 | the checks and the loop with its running end accept exactly the boards of the predicate the theorems are about |
| Partitions.AcceptedIsSafe | tools/generate_boards.py:65-248 | a board is accepted if and only if its flash size is reviewed and both tables are aligned, free of overlap and inside the flash, the OTA table up to its very end |
| Partitions.AcceptedMeaning | tools/generate_boards.py:65-87 | the accepted boards with every limit: flash of 8 or 16 MiB, four regions above 0x35000 on units of 64 or 4 KiB that follow each other and end with the flash, factory and staging sizes |
| Partitions.TableNames | tools/generate_boards.py:221-248 | which partitions both tables hold, in which order |
| Partitions.TableExtents | tools/generate_boards.py:221-248 | where the partitions lie and how long they are |
| Partitions.Applications | tools/generate_boards.py:221-248 | factory, recovery and both slots, and no other rows, hold applications |
| Partitions.AcceptedDisjoint | tools/generate_boards.py:221-248 | no two rows of a table of an accepted board overlap, and every row lies inside the flash |
| Partitions.FixedStacked | tools/generate_boards.py:231-240 | the fixed rows follow each other without a gap and end at 0x35000, where the variable rows may begin |
| Partitions.DataSplit | tools/generate_boards.py:243-247 | staging and cache split the data region exactly, which ends with the flash |
| BridgeLifecycle.Bridge.AppMain | firmware/diagnostic-bridge/main/app_main.c:152-247 | every run is lawful and is the run of its world; both buffers end up zero unless the run restarts before its service loop, and then hold what the credential store gave out; idling means that no web resource is held; each report and step is accounted for |
| BridgeLifecycle.Bridge.Bootstrap | firmware/diagnostic-bridge/main/bridge_bootstrap.c:4-36 | the bootstrap stages run in order, each only after the previous one succeeded; null arguments, and missing callbacks after a good preflight, are an invalid argument, and otherwise the result is the last answer |
| BridgeLifecycle.BootOrder | firmware/diagnostic-bridge/main/bridge_bootstrap.c:4-36 | preflight, safe state, runtime, core and pool are asked in this order up to the first refusal, whose status is the result; missing callbacks are refused after the preflight |
| BridgeLifecycle.Bridge.Startup | firmware/diagnostic-bridge/main/app_main.c:152-210 | a restart during startup comes before the watchdog is armed and leaves the credentials in both buffers; every other startup wipes both, and its report carries the status it ended in |
| BridgeLifecycle.Bridge.StartServices | firmware/diagnostic-bridge/main/app_main.c:173-203 | the service starts exactly when web start and watchdog succeed; a failure stops the web shell and returns the status of what failed, and a failed cleanup restarts |
| BridgeLifecycle.ServiceOrder | firmware/diagnostic-bridge/main/app_main.c:152-210 | a run that serves has the five boot stages, credentials, web shell and watchdog behind it, in this order, then the wiping and the report |
| BridgeLifecycle.AnswersRead | firmware/diagnostic-bridge/main/app_main.c:143-205 | what the program makes of each answer: a time-out of the web shell stays one, its other refusals, missing credentials and a refused watchdog are not implemented, all other answers are taken as they are |
| BridgeLifecycle.Bridge.StopWebWithRetry | firmware/diagnostic-bridge/main/app_main.c:70-79 | the web shell is stopped at most twice, and is held afterwards exactly when both attempts failed |
| BridgeLifecycle.Bridge.Serve | firmware/diagnostic-bridge/main/app_main.c:213-226 | one turn waits, polls and steps in this order, stopping at the first failure, whose status it takes |
| BridgeLifecycle.Bridge.ServiceLoop | firmware/diagnostic-bridge/main/app_main.c:211-227 | the loop repeats whole turns and ends in the status of its last event, or in an invalid argument when there is nothing to wait with |
| BridgeLifecycle.Bridge.Shutdown | firmware/diagnostic-bridge/main/app_main.c:228-247 | a running web shell is stopped or the run restarts, already wiped; the last report carries the status that ended the loop |
| BridgeLifecycle.ServicePreceded | firmware/diagnostic-bridge/main/app_main.c:152-227 | before every wait, poll and step all eight boot stages succeeded and the buffers were wiped |
| BridgeLifecycle.NothingAfterFailure | firmware/diagnostic-bridge/main/app_main.c:211-227 | nothing is booted, waited for, polled or stepped after the first failure |
| BridgeLifecycle.IdleIsClean | firmware/diagnostic-bridge/main/app_main.c:228-247 | before idling every web start was followed by a stop that succeeded |
| BridgeLifecycle.RestartIsLast | firmware/diagnostic-bridge/main/app_main.c:81-86 | a restart ends the run, and happens only with a web resource still held |
| BridgeLifecycle.ReportTells | firmware/diagnostic-bridge/main/app_main.c:207-240 | every report carries the status of the last boot stage or service event before it, or an invalid argument when all succeeded but there is nothing to wait with |
| BridgeLifecycle.StartupRestarts | firmware/diagnostic-bridge/main/app_main.c:81-203 | a run restarts before wiping if and only if it boots and gets the credentials, the web shell or the watchdog refuses, and two stops fail |
| BridgeLifecycle.SecretsSurvive | firmware/diagnostic-bridge/main/app_main.c:81-205 | a run that ends in a restart with non-zero secret bytes in every place of both buffers |

## Left out

- Arguments of other Python or JavaScript types than the ones modelled (booleans for integers, subclasses, `None`) are not modelled; a dict with a key that is no natural number keeps only its size.
- The parsing of JSON text into objects, with its duplicate-key and float refusals, is not modelled; ManifestJson starts from the parsed object, with the schema's properties as constants.
- P-256, SHA-256, CRC-32 and key handling are parameters: any verifier, any hash, any checksum.
- `native.py` and the command lines of the packager are left out.
- The concrete messages of the protocol schema are not transcribed: every theorem of the frame codec holds for all schemas that are well-formed. Three facts that the schema validator does not enforce are part of that well-formedness: variants of a message have non-empty names and differ in name and size, a suffix is not named like a field of its prefix, and the header has exactly its fourteen integer fields, of which `reserved` alone is reserved. The two codec methods and `PayloadProofs.FirstOfItsSize` need none of the three.
- The semantic policy of payloads (`_validate_payload_semantics`) is an arbitrary judge of message, values and roles.
- Byte values are kept as bytes where the codec prints hex strings, `int()` of a string or of bytes is refused instead of parsed, and `_variant` as a second name for `variant` is left out.
- Field names are taken to differ from the keys `prefix`, `records`, `tlvs` and `variant` of a payload dict.
- The rendering of C headers, companion schemas, vectors and the literal comparisons with expected policies are left out.
- Plan tasks are modelled by numbers: identifiers are their positions in name order, and the Markdown parsing around the graph check is left out.
- CanBits.Descriptor: the range test of `decimal` compares a floating-point number with a million; it is taken to be exact, which it is for seven digits before and six after the point. Form texts that are no integers are absent values.
- The gzip reader accepts no optional gzip fields and no compressed blocks, because the writer produces none.
- The text of the partition tables is left out, and so are GPIO, memory and clock checks of other boards.
- For the bridge, credentials, watchdog, web shell and drivers are answers of an arbitrary world; `esp_restart` is taken not to return; the service and idle loops are observed for any finite number of turns.
- The health and pool cores, the vehicle side, circuits, LVGL screens and document checks are not part of this model.
