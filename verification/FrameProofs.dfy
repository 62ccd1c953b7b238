/** The frame encoder and decoder are inverse, with the exact conditions under which they are not. */
module FrameProofs {
  import opened Prelude
  import opened Layout
  import opened Payload
  import opened PayloadProofs
  import opened Frame

  // ---------------------------------------------------------------- header records

  lemma HeaderRecord(h: Header)
    ensures FromRecord(ToRecord(h)) == h
    ensures ToRecord(h).Keys == HEADER_NAMES
  {
    forall n | n in HEADER_NAMES ensures NumAt(ToRecord(h), n) == FieldOf(h, n) {
    }
    hide ToRecord, NumAt;
  }

  lemma RecordHeader(r: Record)
    requires r.Keys == HEADER_NAMES
    requires forall n :: n in r ==> r[n].Num?
    ensures ToRecord(FromRecord(r)) == r
  {
    forall n | n in HEADER_NAMES ensures Num(FieldOf(FromRecord(r), n)) == r[n] {
      FieldRead(r, n);
      hide FromRecord, FieldOf, HEADER_NAMES;
    }
    hide FromRecord, FieldOf, NumAt;
  }

  lemma FieldRead(r: Record, n: string)
    requires n in HEADER_NAMES
    ensures FieldOf(FromRecord(r), n) == NumAt(r, n)
  {
    hide NumAt;
  }

  lemma {:induction false} DecodedNumbers(fields: seq<Field>, data: seq<byte>)
    requires forall i :: 0 <= i < |fields| ==> fields[i].kind.Scalar?
    requires DecodeFields(fields, data).Ok?
    ensures forall n :: n in DecodeFields(fields, data).value ==> DecodeFields(fields, data).value[n].Num?
  {
    if fields != [] {
      DecodedNumbers(fields[1..], data);
      hide IsZero, Slice;
    }
  }

  // ---------------------------------------------------------------- the checksum field

  /** The field that ends where the layout ends is the last one. */
  lemma {:induction false} LastField(fields: seq<Field>, start: nat, i: nat)
    requires Contiguous(fields, start) && i < |fields|
    requires Sized(fields[i].kind) && fields[i].offset + Size(fields[i].kind) == End(fields, start)
    ensures i == |fields| - 1
    decreases |fields|
  {
    EndWithin(fields, start);
    ContiguousStep(fields, start);
    if i > 0 {
      LastField(fields[1..], start + Size(fields[0].kind), i - 1);
    } else {
      EndGrows(fields[1..], start + Size(fields[0].kind));
    }
  }

  lemma EndGrows(fields: seq<Field>, start: nat)
    requires Contiguous(fields, start)
    ensures End(fields, start) == start <==> fields == []
  {
    if fields != [] {
      EndWithin(fields, start);
    }
  }

  lemma HeaderEnd(header: seq<Field>)
    requires HeaderOk(header)
    ensures header != [] && header[|header| - 1].name == "crc32" && header[|header| - 1].kind == Scalar(4, false)
    ensures "crc32" !in WireNames(header[..|header| - 1])
    ensures IsLayout(header, HEADER_SIZE) && Contiguous(header, 0) && End(header, 0) == HEADER_SIZE
  {
    hide NamesClean, WireNames, HEADER_NAMES;
    var i: nat :| i < |header| && header[i].name == "crc32" && header[i].kind == Scalar(4, false) && header[i].offset == 28;
    LastField(header, 0, i);
    LastNameOnce(header);
  }

  lemma LastNameOnce(fields: seq<Field>)
    requires fields != [] && NamesClean(fields)
    ensures fields[|fields| - 1].name !in WireNames(fields[..|fields| - 1])
  {
    hide WellNamed, CName;
    var init := fields[..|fields| - 1];
    forall j | 0 <= j < |init| ensures init[j].name != fields[|fields| - 1].name {
      assert init[j] == fields[j];
    }
  }

  lemma {:induction false} EncodeSplit(a: seq<Field>, b: seq<Field>, values: Record)
    ensures EncodeFields(a + b, values) == Chain(EncodeFields(a, values), EncodeFields(b, values))
  {
    if a == [] {
      assert a + b == b;
      ChainEmpty(EncodeFields(b, values));
    } else {
      assert (a + b)[1..] == a[1..] + b && (a + b)[0] == a[0];
      EncodeSplit(a[1..], b, values);
      hide EncodeField, Chain;
      EncodeHead(a, values);
      EncodeHead(a + b, values);
      ChainChain(EncodeField(a[0], Lookup(values, a[0].name)), EncodeFields(a[1..], values), EncodeFields(b, values));
    }
  }

  lemma EncodeHead(fields: seq<Field>, values: Record)
    requires fields != []
    ensures EncodeFields(fields, values)
         == Chain(EncodeField(fields[0], Lookup(values, fields[0].name)), EncodeFields(fields[1..], values))
  {
    hide EncodeField;
  }

  lemma ChainEmpty(b: Option<seq<byte>>)
    ensures Chain(Some([]), b) == b
  {
    assert b.Some? ==> [] + b.value == b.value;
  }

  lemma ChainChain(a: Option<seq<byte>>, b: Option<seq<byte>>, c: Option<seq<byte>>)
    ensures Chain(a, Chain(b, c)) == Chain(Chain(a, b), c)
  {
    if a.Some? && b.Some? && c.Some? {
      assert a.value + (b.value + c.value) == a.value + b.value + c.value;
    }
  }

  /** The bytes of a header up to its checksum. */
  function Front(header: seq<Field>, h: Header): Option<seq<byte>>
    requires header != []
  {
    EncodeFields(header[..|header| - 1], ToRecord(h))
  }

  predicate SumFits(sum: int) {
    0 <= sum < CHECKSUM_LIMIT
  }

  lemma SumBytes(f: Field, values: Record, sum: int)
    requires f.kind == Scalar(4, false) && f.name in values && values[f.name] == Num(sum) && SumFits(sum)
    ensures EncodeFields([f], values) == Some(LittleEndian(sum, 4))
    ensures sum == 0 ==> LittleEndian(sum, 4) == Zeros(4)
  {
    assert Pow256(4) == CHECKSUM_LIMIT by {
      assert Pow256(2) == 65536 && Pow256(3) == 256 * Pow256(2);
    }
    assert [f][1..] == [] && [f][0] == f;
    assert LittleEndian(sum, 4) + [] == LittleEndian(sum, 4);
    ZeroBytes(4);
    hide Pow256, LittleEndian;
  }

  lemma {:induction false} ZeroBytes(n: nat)
    ensures LittleEndian(0, n) == Zeros(n)
  {
    if n > 0 {
      ZeroBytes(n - 1);
      assert [0] + Zeros(n - 1) == Zeros(n);
    }
  }

  lemma RecordSum(h: Header, sum: int)
    ensures ToRecord(h.(checksum := sum)) == ToRecord(h)["crc32" := Num(sum)]
  {
  }

  /** Whatever the checksum, the bytes before it are the same. */
  lemma SealSplit(header: seq<Field>, h: Header, sum: int)
    requires HeaderOk(header) && SumFits(sum)
    ensures header != []
    ensures EncodeFields(header, ToRecord(h.(checksum := sum))) == Chain(Front(header, h), Some(LittleEndian(sum, 4)))
    ensures sum == 0 ==> LittleEndian(sum, 4) == Zeros(4)
  {
    hide *;
    HeaderEnd(header);
    var last := |header| - 1;
    var values, f := ToRecord(h.(checksum := sum)), header[last];
    assert header[..last] + [f] == header;
    EncodeSplit(header[..last], [f], values);
    RecordSum(h, sum);
    EncodeWider(header[..last], ToRecord(h), "crc32", Num(sum));
    SumBytes(f, values, sum);
    FrontUnfold(header, h);
  }

  lemma FrontUnfold(header: seq<Field>, h: Header)
    requires header != []
    ensures Front(header, h) == EncodeFields(header[..|header| - 1], ToRecord(h))
  {
    hide EncodeFields, ToRecord;
  }

  lemma ReservedHeader(header: seq<Field>, h: Header)
    requires HeaderOk(header)
    ensures ReservedZero(header, ToRecord(h)) <==> h.reserved == 0
  {
    HeaderRecord(h);
    hide IsLayout;
    assert "reserved" in WireNames(header);
    var i :| 0 <= i < |header| && header[i].name == "reserved";
    var r := ToRecord(h);
    assert "reserved" in r && r["reserved"] == Num(h.reserved);
    hide ToRecord, WireNames, HEADER_NAMES;
    if h.reserved == 0 {
      forall j | 0 <= j < |header| && header[j].reserved && header[j].name in r ensures IsZero(r[header[j].name]) {
      }
    } else {
      assert header[i].reserved && !IsZero(r[header[i].name]);
    }
  }

  /** The header bytes and the header determine each other. */
  lemma HeaderBijection(header: seq<Field>, h: Header, data: seq<byte>)
    requires HeaderOk(header) && |data| == HEADER_SIZE
    ensures DecodeFields(header, data) == Ok(ToRecord(h)) <==>
              EncodeFields(header, ToRecord(h)) == Some(data) && h.reserved == 0
  {
    HeaderEnd(header);
    assert WireNames(header) == HEADER_NAMES;
    hide *;
    HeaderRecord(h);
    ReservedHeader(header, h);
    LayoutBijection(header, HEADER_SIZE, ToRecord(h), data);
  }

  lemma HeaderDecodes(header: seq<Field>, data: seq<byte>)
    requires HeaderOk(header) && DecodeFields(header, data).Ok?
    ensures DecodeFields(header, data) == Ok(ToRecord(FromRecord(DecodeFields(header, data).value)))
  {
    assert forall i :: 0 <= i < |header| ==> header[i].kind.Scalar?;
    assert WireNames(header) == HEADER_NAMES;
    hide *;
    DecodedNames(header, data);
    DecodedNumbers(header, data);
    RecordHeader(DecodeFields(header, data).value);
  }

  /** A sealed frame decodes to its header, and its checksum is that of the frame with the checksum
      field zeroed. */
  lemma SealedDecodes(schema: Schema, h: Header, payload: seq<byte>, frame: seq<byte>) returns (sum: nat)
    requires HeaderOk(schema.header) && h.reserved == 0 && Sealed(schema, h, payload) == Some(frame)
    ensures |frame| == HEADER_SIZE + |payload| && frame[HEADER_SIZE..] == payload
    ensures DecodeFields(schema.header, frame[..HEADER_SIZE]) == Ok(ToRecord(h.(checksum := sum)))
    ensures sum == Checksum(schema, frame[..28] + Zeros(4) + payload)
  {
    assert HEADER_SIZE == 32;
    hide *;
    ChecksumFits(schema, []);
    SealSplit(schema.header, h, 0);
    var front := SealedUnfold(schema, h, payload, frame);
    sum := Checksum(schema, front + Zeros(4) + payload);
    ChecksumFits(schema, front + Zeros(4) + payload);
    SealSplit(schema.header, h, sum);
    SealedParts(schema, h, payload, frame, front, sum);
    HeaderLength(schema.header, h.(checksum := sum), front + LittleEndian(sum, 4));
    FrameCuts(front, LittleEndian(sum, 4), payload, frame);
    HeaderBijection(schema.header, h.(checksum := sum), frame[..HEADER_SIZE]);
  }

  lemma FrameCuts(front: seq<byte>, sum: seq<byte>, payload: seq<byte>, frame: seq<byte>)
    requires |front + sum| == HEADER_SIZE && |sum| == 4 && frame == front + sum + payload
    ensures |frame| == HEADER_SIZE + |payload| && HEADER_SIZE == 32
    ensures frame[..HEADER_SIZE] == front + sum && frame[HEADER_SIZE..] == payload && frame[..28] == front
  {
  }

  lemma HeaderLength(header: seq<Field>, h: Header, data: seq<byte>)
    requires HeaderOk(header) && EncodeFields(header, ToRecord(h)) == Some(data)
    ensures |data| == HEADER_SIZE
  {
    HeaderEnd(header);
    hide HeaderOk, EncodeFields, ToRecord, Contiguous, End, IsLayout;
    EncodedLength(header, ToRecord(h), 0);
  }

  lemma ChecksumFits(schema: Schema, data: seq<byte>)
    ensures SumFits(Checksum(schema, data)) && SumFits(0)
  {
  }

  lemma SealedUnfold(schema: Schema, h: Header, payload: seq<byte>, frame: seq<byte>) returns (front: seq<byte>)
    requires schema.header != [] && Sealed(schema, h, payload) == Some(frame)
    requires EncodeFields(schema.header, ToRecord(h.(checksum := 0)))
          == Chain(Front(schema.header, h), Some(LittleEndian(0, 4)))
    requires LittleEndian(0, 4) == Zeros(4)
    ensures Front(schema.header, h) == Some(front)
    ensures EncodeFields(schema.header, ToRecord(h.(checksum := 0))) == Some(front + Zeros(4))
  {
    hide EncodeFields, ToRecord, LittleEndian, Front, Checksum;
    front := Front(schema.header, h).value;
  }

  lemma SealedParts(schema: Schema, h: Header, payload: seq<byte>, frame: seq<byte>, front: seq<byte>, sum: nat)
    requires schema.header != [] && Sealed(schema, h, payload) == Some(frame)
    requires EncodeFields(schema.header, ToRecord(h.(checksum := 0))) == Some(front + Zeros(4))
    requires sum == Checksum(schema, front + Zeros(4) + payload) && Front(schema.header, h) == Some(front)
    requires EncodeFields(schema.header, ToRecord(h.(checksum := sum)))
          == Chain(Front(schema.header, h), Some(LittleEndian(sum, 4)))
    ensures EncodeFields(schema.header, ToRecord(h.(checksum := sum))) == Some(front + LittleEndian(sum, 4))
    ensures frame == front + LittleEndian(sum, 4) + payload
  {
    hide EncodeFields, ToRecord, LittleEndian, Front, Checksum, Zeros;
  }

  /** A header read from a frame with the right checksum seals the frame again. */
  lemma SealedAgain(schema: Schema, h: Header, frame: seq<byte>)
    requires HeaderOk(schema.header) && |frame| >= HEADER_SIZE
    requires DecodeFields(schema.header, frame[..HEADER_SIZE]) == Ok(ToRecord(h))
    requires h.checksum == Checksum(schema, frame[..28] + Zeros(4) + frame[HEADER_SIZE..])
    ensures Sealed(schema, h.(checksum := 0), frame[HEADER_SIZE..]) == Some(frame)
    ensures h.reserved == 0
  {
    hide *;
    var head, payload := frame[..HEADER_SIZE], frame[HEADER_SIZE..];
    FrameHalves(frame);
    HeaderBijection(schema.header, h, head);
    SealedHead(schema, h, head, payload);
  }

  lemma FrameHalves(frame: seq<byte>)
    requires |frame| >= HEADER_SIZE
    ensures var head, payload := frame[..HEADER_SIZE], frame[HEADER_SIZE..];
            frame == head + payload && |head| == HEADER_SIZE == 32 && head[..28] == frame[..28]
  {
  }

  lemma SealedHead(schema: Schema, h: Header, head: seq<byte>, payload: seq<byte>)
    requires HeaderOk(schema.header) && EncodeFields(schema.header, ToRecord(h)) == Some(head)
    requires |head| == 32 && h.checksum == Checksum(schema, head[..28] + Zeros(4) + payload)
    ensures Sealed(schema, h.(checksum := 0), payload) == Some(head + payload)
  {
    hide *;
    ChecksumFits(schema, head[..28] + Zeros(4) + payload);
    var front := HeaderFront(schema.header, h, head);
    assert front == head[..28];
    SealedFold(schema, h, payload, front + Zeros(4), head);
  }

  lemma HeaderFront(header: seq<Field>, h: Header, head: seq<byte>) returns (front: seq<byte>)
    requires HeaderOk(header) && SumFits(h.checksum) && EncodeFields(header, ToRecord(h)) == Some(head)
    ensures head == front + LittleEndian(h.checksum, 4)
    ensures EncodeFields(header, ToRecord(h.(checksum := 0))) == Some(front + Zeros(4))
  {
    assert SumFits(0);
    hide *;
    SealSplit(header, h, h.checksum);
    SealSplit(header, h, 0);
    assert h.(checksum := h.checksum) == h;
    var sum;
    front, sum := ChainSplit(Front(header, h), Some(LittleEndian(h.checksum, 4)), head);
    ChainOk(front, Zeros(4));
  }

  lemma SealedFold(schema: Schema, h: Header, payload: seq<byte>, blank: seq<byte>, head: seq<byte>)
    requires EncodeFields(schema.header, ToRecord(h.(checksum := 0))) == Some(blank)
    requires h.checksum == Checksum(schema, blank + payload)
    requires EncodeFields(schema.header, ToRecord(h)) == Some(head)
    ensures Sealed(schema, h.(checksum := 0), payload) == Some(head + payload)
  {
    hide EncodeFields, ToRecord, Checksum;
  }
}
