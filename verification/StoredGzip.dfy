/** The reproducible gzip writer for web assets, after `canonical_gzip` in
 *  tools/generate_bridge_web_assets.py, against a reader of stored blocks (section 3.2.4 of RFC 1951) in a
 *  gzip member (section 2.3 of RFC 1952). The CRC-32 is a parameter. */
module StoredGzip {
  import opened Prelude

  const GZIP_HEADER: seq<byte> := [0x1f, 0x8b, 0x08, 0x00, 0x00, 0x00, 0x00, 0x00, 0x00, 0xff]
  const BLOCK_BYTES: nat := 65535
  const WORD: nat := 0x1_0000_0000

  type Crc = seq<byte> -> nat

  // ---------------------------------------------------------------- writing

  /** `n ^ 0xFFFF` for 16 bits. */
  function Complement(n: nat): nat
    requires n <= 0xFFFF
  {
    0xFFFF - n
  }

  function Block(final: bool, data: seq<byte>): (b: seq<byte>)
    requires |data| <= BLOCK_BYTES
    ensures |b| == 5 + |data|
  {
    [if final then 0x01 else 0x00] + LittleEndian(|data|, 2) + LittleEndian(Complement(|data|), 2) + data
  }

  /** Full blocks and then a final one that holds the rest. */
  function Stored(source: seq<byte>): seq<byte> {
    if |source| <= BLOCK_BYTES then Block(true, source)
    else Block(false, source[..BLOCK_BYTES]) + Stored(source[BLOCK_BYTES..])
  }

  function Trailer(crc: Crc, source: seq<byte>): (t: seq<byte>)
    ensures |t| == 8
  {
    LittleEndian(crc(source) % WORD, 4) + LittleEndian(|source| % WORD, 4)
  }

  function CanonicalGzip(crc: Crc, source: seq<byte>): seq<byte> {
    GZIP_HEADER + Stored(source) + Trailer(crc, source)
  }

  method WriteGzip(crc: Crc, source: seq<byte>) returns (output: seq<byte>)
    ensures output == CanonicalGzip(crc, source)
  {
    hide Trailer, Block, LittleEndian, GZIP_HEADER;
    output := GZIP_HEADER;
    if |source| == 0 {
      EmptyBlock(source);
      output := output + [0x01, 0x00, 0x00, 0xff, 0xff];
    } else {
      var offset := 0;
      assert source[0..] == source;
      while offset < |source|
        invariant offset <= |source|
        invariant offset < |source| ==> GZIP_HEADER + Stored(source) == output + Stored(source[offset..])
        invariant offset == |source| ==> GZIP_HEADER + Stored(source) == output
      {
        hide Stored;
        var end := if offset + BLOCK_BYTES < |source| then offset + BLOCK_BYTES else |source|;
        var block := source[offset..end];
        var final := offset + |block| == |source|;
        StoredStep(source, offset, end, output);
        output := output + Block(final, block);
        offset := end;
      }
    }
    output := output + Trailer(crc, source);
  }

  lemma EmptyBlock(source: seq<byte>)
    requires source == []
    ensures Stored(source) == [0x01, 0x00, 0x00, 0xff, 0xff]
  {
    assert LittleEndian(0, 2) == [0x00, 0x00] by {
      assert LittleEndian(0, 1) == [0] + LittleEndian(0, 0);
    }
    assert LittleEndian(0xFFFF, 2) == [0xff, 0xff] by {
      assert LittleEndian(0xFF, 1) == [0xff] + LittleEndian(0, 0);
    }
  }

  lemma StoredStep(source: seq<byte>, offset: nat, end: nat, output: seq<byte>)
    requires offset < |source|
    requires end == if offset + BLOCK_BYTES < |source| then offset + BLOCK_BYTES else |source|
    ensures var block := source[offset..end];
            if end == |source| then output + Stored(source[offset..]) == output + Block(true, block)
            else output + Stored(source[offset..]) == output + Block(false, block) + Stored(source[end..])
  {
    hide Block;
    var rest := source[offset..];
    if end == |source| {
      assert rest == source[offset..end];
    } else {
      assert rest[..BLOCK_BYTES] == source[offset..end] && rest[BLOCK_BYTES..] == source[end..];
      assert output + (Block(false, source[offset..end]) + Stored(source[end..]))
          == output + Block(false, source[offset..end]) + Stored(source[end..]);
    }
  }

  // ---------------------------------------------------------------- reading

  datatype StoredBlock = StoredBlock(final: bool, data: seq<byte>)

  /** The first block of a stream and what follows it: one bit BFINAL, two bits BTYPE = 00, then from
      the next byte LEN, its complement NLEN, and LEN bytes. */
  function ReadBlock(stream: seq<byte>): (r: Option<(StoredBlock, seq<byte>)>)
    ensures r.Some? ==> |r.value.1| < |stream|
  {
    if |stream| < 5 || stream[0] / 2 % 4 != 0 then None
    else
      var length, check := FromLittleEndian(stream[1..3]), FromLittleEndian(stream[3..5]);
      if length + check != 0xFFFF || |stream| < 5 + length then None
      else Some((StoredBlock(stream[0] % 2 == 1, stream[5..5 + length]), stream[5 + length..]))
  }

  /** The blocks up to the first final one, and what follows. */
  function ReadBlocks(stream: seq<byte>): Option<(seq<StoredBlock>, seq<byte>)>
    decreases |stream|
  {
    var first := ReadBlock(stream);
    if first.None? then None
    else if first.value.0.final then Some(([first.value.0], first.value.1))
    else
      var rest := ReadBlocks(first.value.1);
      if rest.None? then None else Some(([first.value.0] + rest.value.0, rest.value.1))
  }

  function Contents(blocks: seq<StoredBlock>): seq<byte> {
    if blocks == [] then [] else blocks[0].data + Contents(blocks[1..])
  }

  /** A member without optional fields: header, blocks, CRC-32 and length of the contents, and no more. */
  function Gunzip(crc: Crc, member: seq<byte>): Option<seq<byte>> {
    if |member| < 10 || member[..4] != [0x1f, 0x8b, 0x08, 0x00] then None
    else
      var blocks := ReadBlocks(member[10..]);
      if blocks.None? then None
      else
        var data, rest := Contents(blocks.value.0), blocks.value.1;
        if |rest| != 8 || FromLittleEndian(rest[..4]) != crc(data) % WORD || FromLittleEndian(rest[4..]) != |data| % WORD
        then None else Some(data)
  }

  // ---------------------------------------------------------------- round trip

  lemma BlockReads(final: bool, data: seq<byte>, rest: seq<byte>)
    requires |data| <= BLOCK_BYTES
    ensures ReadBlock(Block(final, data) + rest) == Some((StoredBlock(final, data), rest))
  {
    assert Pow256(2) == 65536 by {
      assert Pow256(1) == 256;
    }
    LittleEndianRoundTrip(|data|, 2);
    LittleEndianRoundTrip(Complement(|data|), 2);
    hide LittleEndian, FromLittleEndian, Pow256;
    var stream := Block(final, data) + rest;
    BlockCuts(if final then 0x01 else 0x00, LittleEndian(|data|, 2), LittleEndian(Complement(|data|), 2), data, rest, stream);
  }

  lemma BlockCuts(head: byte, length: seq<byte>, check: seq<byte>, data: seq<byte>, rest: seq<byte>, stream: seq<byte>)
    requires |length| == 2 && |check| == 2 && stream == [head] + length + check + data + rest
    ensures |stream| >= 5 + |data| && stream[0] == head && stream[1..3] == length && stream[3..5] == check
    ensures stream[5..5 + |data|] == data && stream[5 + |data|..] == rest
  {
  }

  /** The blocks a source is cut into. */
  function Cut(source: seq<byte>): seq<StoredBlock> {
    if |source| <= BLOCK_BYTES then [StoredBlock(true, source)]
    else [StoredBlock(false, source[..BLOCK_BYTES])] + Cut(source[BLOCK_BYTES..])
  }

  lemma {:induction false} StoredReads(source: seq<byte>, rest: seq<byte>)
    ensures ReadBlocks(Stored(source) + rest) == Some((Cut(source), rest))
    decreases |source|
  {
    hide Block, ReadBlock;
    if |source| <= BLOCK_BYTES {
      BlockReads(true, source, rest);
    } else {
      var head, tail := source[..BLOCK_BYTES], source[BLOCK_BYTES..];
      assert Block(false, head) + Stored(tail) + rest == Block(false, head) + (Stored(tail) + rest);
      BlockReads(false, head, Stored(tail) + rest);
      StoredReads(tail, rest);
    }
  }

  lemma {:induction false} CutContents(source: seq<byte>)
    ensures Contents(Cut(source)) == source
    decreases |source|
  {
    if |source| <= BLOCK_BYTES {
      assert Cut(source)[1..] == [] && source + [] == source;
    } else {
      CutContents(source[BLOCK_BYTES..]);
      assert Cut(source)[1..] == Cut(source[BLOCK_BYTES..]);
      assert source == source[..BLOCK_BYTES] + source[BLOCK_BYTES..];
    }
  }

  /** The number of blocks: one for an empty source, else as many as full blocks are needed. */
  function BlockCount(n: nat): nat {
    if n == 0 then 1 else (n + BLOCK_BYTES - 1) / BLOCK_BYTES
  }

  /** Only the last block is final, every other is full, and there are as many as needed. */
  lemma {:induction false} CutShape(source: seq<byte>)
    ensures |Cut(source)| == BlockCount(|source|)
    ensures forall i :: 0 <= i < |Cut(source)| ==> (Cut(source)[i].final <==> i == |Cut(source)| - 1)
    ensures forall i :: 0 <= i < |Cut(source)| - 1 ==> |Cut(source)[i].data| == BLOCK_BYTES
    ensures |Stored(source)| == |source| + 5 * BlockCount(|source|)
    decreases |source|
  {
    if |source| > BLOCK_BYTES {
      var tail := source[BLOCK_BYTES..];
      CutShape(tail);
      assert BlockCount(|source|) == BlockCount(|tail|) + 1;
      assert Cut(source) == [StoredBlock(false, source[..BLOCK_BYTES])] + Cut(tail);
      hide Block, BlockCount;
    }
  }

  /** Reading what was written gives back the source, whatever it is. */
  lemma GzipRoundTrip(crc: Crc, source: seq<byte>)
    ensures Gunzip(crc, CanonicalGzip(crc, source)) == Some(source)
    ensures |CanonicalGzip(crc, source)| == |source| + 5 * BlockCount(|source|) + 18
  {
    StoredReads(source, Trailer(crc, source));
    CutContents(source);
    CutShape(source);
    WordsRead(crc(source) % WORD, |source| % WORD, Trailer(crc, source));
    var member := CanonicalGzip(crc, source);
    assert |GZIP_HEADER| == 10 && GZIP_HEADER[..4] == [0x1f, 0x8b, 0x08, 0x00];
    hide Stored, Trailer, Cut, Contents, ReadBlocks, BlockCount, FromLittleEndian;
    MemberCuts(GZIP_HEADER, Stored(source) + Trailer(crc, source), Stored(source), Trailer(crc, source), member);
    hide GZIP_HEADER;
  }

  lemma MemberCuts(header: seq<byte>, body: seq<byte>, stored: seq<byte>, trailer: seq<byte>, member: seq<byte>)
    requires |header| == 10 && body == stored + trailer && member == header + stored + trailer
    ensures |member| >= 10 && member[..4] == header[..4] && member[10..] == body
  {
    assert member == header + body;
  }

  lemma WordsRead(a: nat, b: nat, trailer: seq<byte>)
    requires a < WORD && b < WORD && trailer == LittleEndian(a, 4) + LittleEndian(b, 4)
    ensures FromLittleEndian(trailer[..4]) == a && FromLittleEndian(trailer[4..]) == b
  {
    assert Pow256(4) == WORD by {
      assert Pow256(2) == 65536 && Pow256(3) == 256 * Pow256(2);
    }
    LittleEndianRoundTrip(a, 4);
    LittleEndianRoundTrip(b, 4);
    hide LittleEndian, FromLittleEndian, Pow256;
    assert trailer[..4] == LittleEndian(a, 4) && trailer[4..] == LittleEndian(b, 4);
  }

  // ---------------------------------------------------------------- byte by byte

  lemma TwoBytes(n: nat)
    requires n < 0x1_0000
    ensures LittleEndian(n, 2) == [n % 256, n / 256]
  {
    assert LittleEndian(n / 256, 1) == [n / 256 % 256] + LittleEndian(n / 256 / 256, 0);
  }

  /** A block begins with its mark, its length, and the complement of each byte of the length. */
  lemma BlockBytes(final: bool, data: seq<byte>)
    requires |data| <= 65535
    ensures var low, high := |data| % 256, |data| / 256;
            Block(final, data) == [if final then 1 else 0, low, high, 255 - low, 255 - high] + data
  {
    TwoBytes(|data|);
    TwoBytes(65535 - |data|);
    hide LittleEndian;
  }

  /** Header without time, name or system, so that the bytes depend on the source alone; then the source in blocks
      of 65535 bytes. */
  lemma MemberBytes(crc: Crc, source: seq<byte>)
    ensures CanonicalGzip(crc, source)[..10] == [0x1f, 0x8b, 8, 0, 0, 0, 0, 0, 0, 0xff]
    ensures CanonicalGzip(crc, source)[10..10 + |Stored(source)|] == Stored(source)
    ensures Stored(source) == if |source| <= 65535 then Block(true, source)
                              else Block(false, source[..65535]) + Stored(source[65535..])
  {
    hide Block;
  }
}
