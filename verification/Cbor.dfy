/** The bounded deterministic CBOR profile of tools/ota/cbor.py, as functions.
 *
 *  `Spell`, `Count` and `Fits` say what the profile is; `DecodeItem` and `EncodeItem` say, check by
 *  check, what the two recursions of the program do. CborProofs relates them, and CborMachine holds
 *  the imperative recursions with their shared cursor, counter and output buffer.
 */
module Cbor {
  import opened Prelude
  import Utf8

  const MAX_BYTES: nat := 16384
  const MAX_DEPTH: nat := 8
  const MAX_ITEMS: nat := 2048
  const U64: nat := 0x1_0000_0000_0000_0000

  datatype Status =
    | Malformed
    | UnsupportedVersion
    | UnsupportedMessage
    | Oversize
    | Incomplete
    | Duplicate
    | AuthFailed

  /** A Python object handed to the encoder or returned by the decoder. `Record` is a dict with some
      key that is not a natural number, of which only the size can matter; `Other` is an object of
      any type the profile does not know. */
  datatype Value =
    | Int(n: int)
    | Bytes(raw: seq<byte>)
    | Text(characters: seq<Utf8.codepoint>)
    | List(elements: seq<Value>)
    | Dict(entries: map<nat, Value>)
    | Record(size: nat)
    | Other

  // ---------------------------------------------------------------- heads

  /** The number of argument bytes announced by the additional information 24..27. */
  function Width(additional: nat): (w: nat)
    requires 24 <= additional < 28
  {
    if additional == 24 then 1 else if additional == 25 then 2 else if additional == 26 then 4 else 8
  }

  /** The least argument that needs this many bytes. */
  function Floor(additional: nat): nat
    requires 24 <= additional < 28
  {
    if additional == 24 then 24 else if additional == 25 then 256
    else if additional == 26 then 65536 else 4294967296
  }

  function Additional(argument: nat): (a: nat)
    requires 24 <= argument < U64
    ensures 24 <= a < 28
  {
    if argument < 256 then 24 else if argument < 65536 then 25
    else if argument < 4294967296 then 26 else 27
  }

  /** The shortest head of a major type and an argument. */
  function Head(major: nat, argument: nat): (s: seq<byte>)
    requires major < 8 && argument < U64
    ensures 1 <= |s| <= 9
  {
    if argument < 24 then [major * 32 + argument]
    else [major * 32 + Additional(argument)] + BigEndian(argument, Width(Additional(argument)))
  }

  datatype HeadInfo = HeadInfo(major: nat, argument: nat, next: nat)

  predicate KnownMajor(major: nat) {
    major == 0 || major == 2 || major == 3 || major == 4 || major == 5
  }

  function ReadHead(data: seq<byte>, offset: nat): (r: Result<HeadInfo, Status>)
    requires offset <= |data|
    ensures r.Ok? ==> offset < r.value.next <= |data|
  {
    if offset == |data| then Err(Incomplete)
    else
      var major, additional := data[offset] / 32, data[offset] % 32;
      if !KnownMajor(major) then Err(UnsupportedMessage)
      else if additional >= 28 then Err(Malformed)
      else if additional < 24 then Ok(HeadInfo(major, additional, offset + 1))
      else if Width(additional) > |data| - (offset + 1) then Err(Incomplete)
      else
        var next := offset + 1 + Width(additional);
        var argument := FromBigEndian(data[offset + 1..next]);
        if argument < Floor(additional) then Err(Malformed) else Ok(HeadInfo(major, argument, next))
  }

  // ---------------------------------------------------------------- the profile

  /** Whether every part of a value is within the limits that do not depend on its surroundings. */
  predicate Fits(v: Value, depth: nat)
    decreases v
  {
    match v
    case Int(n) => 0 <= n < U64
    case Bytes(raw) => |raw| <= MAX_BYTES
    case Text(t) => Utf8.Encode(t).Some? && |Utf8.Encode(t).value| <= MAX_BYTES
    case List(vs) =>
      && depth < MAX_DEPTH
      && |vs| <= MAX_ITEMS
      && forall i :: 0 <= i < |vs| ==> Fits(vs[i], depth + 1)
    case Dict(m) =>
      && depth < MAX_DEPTH
      && |m| <= MAX_ITEMS / 2
      && forall k: nat :: k in m ==> k < U64 && Fits(m[k], depth + 1)
    case Record(_) => false
    case Other => false
  }

  /** The one spelling of a value. */
  function Spell(v: Value): seq<byte>
    decreases v, 1
  {
    match v
    case Int(n) => if 0 <= n < U64 then Head(0, n) else []
    case Bytes(raw) => (if |raw| < U64 then Head(2, |raw|) else []) + raw
    case Text(t) =>
      var raw := Utf8.Encode(t);
      if raw.Some? && |raw.value| < U64 then Head(3, |raw.value|) + raw.value else []
    case List(vs) => (if |vs| < U64 then Head(4, |vs|) else []) + SpellAll(vs)
    case Dict(m) =>
      SortedKeysMembers(m.Keys);
      (if |m| < U64 then Head(5, |m|) else []) + SpellEntries(v, SortedKeys(m.Keys))
    case Record(_) => []
    case Other => []
  }

  function SpellAll(vs: seq<Value>): seq<byte>
    decreases vs, 0
  {
    if vs == [] then [] else Spell(vs[0]) + SpellAll(vs[1..])
  }

  /** Keys and values alternate, in the order of `ks`. */
  function SpellEntries(v: Value, ks: seq<nat>): seq<byte>
    requires v.Dict? && forall i :: 0 <= i < |ks| ==> ks[i] in v.entries
    decreases v, 0, |ks|
  {
    if ks == [] then []
    else (if ks[0] < U64 then Head(0, ks[0]) else []) + Spell(v.entries[ks[0]]) + SpellEntries(v, ks[1..])
  }

  /** The number of data items, keys included. */
  function Count(v: Value): (n: nat)
    ensures n >= 1
    decreases v, 1
  {
    match v
    case List(vs) => 1 + CountAll(vs)
    case Dict(m) =>
      SortedKeysMembers(m.Keys);
      1 + CountEntries(v, SortedKeys(m.Keys))
    case _ => 1
  }

  function CountAll(vs: seq<Value>): nat
    decreases vs, 0
  {
    if vs == [] then 0 else Count(vs[0]) + CountAll(vs[1..])
  }

  function CountEntries(v: Value, ks: seq<nat>): nat
    requires v.Dict? && forall i :: 0 <= i < |ks| ==> ks[i] in v.entries
    decreases v, 0, |ks|
  {
    if ks == [] then 0 else 1 + Count(v.entries[ks[0]]) + CountEntries(v, ks[1..])
  }

  // ---------------------------------------------------------------- decoding

  /** A value together with the cursor and the item counter after it. */
  datatype Parsed<+T> = Parsed(value: T, offset: nat, items: nat)

  function DecodeItem(data: seq<byte>, offset: nat, items: nat, depth: nat, root: bool, key: bool)
    : (r: Result<Parsed<Value>, Status>)
    requires offset <= |data|
    ensures r.Ok? ==> offset < r.value.offset <= |data|
    ensures r.Ok? && key ==> r.value.value.Int? && r.value.value.n >= 0
    decreases |data| - offset, 0
  {
    if items >= MAX_ITEMS then Err(Oversize)
    else
      var head :- ReadHead(data, offset);
      if (root && head.major != 5) || (key && head.major != 0) then Err(Malformed)
      else DecodeContent(data, head, items + 1, depth)
  }

  /** What follows a head, once the item has been counted. */
  function DecodeContent(data: seq<byte>, head: HeadInfo, items: nat, depth: nat): (r: Result<Parsed<Value>, Status>)
    requires head.next <= |data|
    ensures r.Ok? ==> head.next <= r.value.offset <= |data|
    ensures r.Ok? && head.major == 0 ==> r.value.value == Int(head.argument)
    decreases |data| - head.next, 2
  {
    if head.major == 0 then Ok(Parsed(Int(head.argument), head.next, items))
    else if head.major == 2 || head.major == 3 then DecodeString(data, head, items)
    else
      var factor := if head.major == 5 then 2 else 1;
      if depth >= MAX_DEPTH || head.argument > MAX_ITEMS / factor then Err(Oversize)
      else if head.major == 4 then
        var vs :- DecodeElements(data, head.next, items, depth, head.argument);
        Ok(Parsed(List(vs.value), vs.offset, vs.items))
      else
        var m :- DecodeEntries(data, head.next, items, depth, head.argument, None);
        Ok(Parsed(Dict(m.value), m.offset, m.items))
  }

  function DecodeString(data: seq<byte>, head: HeadInfo, items: nat): (r: Result<Parsed<Value>, Status>)
    requires head.next <= |data|
    ensures r.Ok? ==> head.next <= r.value.offset <= |data|
  {
    if head.argument > MAX_BYTES then Err(Oversize)
    else if head.argument > |data| - head.next then Err(Incomplete)
    else
      var next := head.next + head.argument;
      var raw := data[head.next..next];
      if head.major == 2 then Ok(Parsed(Bytes(raw), next, items))
      else
        var t := Utf8.Decode(raw);
        if t.None? then Err(Malformed) else Ok(Parsed(Text(t.value), next, items))
  }

  function DecodeElements(data: seq<byte>, offset: nat, items: nat, depth: nat, n: nat)
    : (r: Result<Parsed<seq<Value>>, Status>)
    requires offset <= |data|
    ensures r.Ok? ==> offset <= r.value.offset <= |data|
    decreases |data| - offset, 1
  {
    if n == 0 then Ok(Parsed([], offset, items))
    else
      var first :- DecodeItem(data, offset, items, depth + 1, false, false);
      var rest :- DecodeElements(data, first.offset, first.items, depth, n - 1);
      Ok(Parsed([first.value] + rest.value, rest.offset, rest.items))
  }

  function DecodeEntries(data: seq<byte>, offset: nat, items: nat, depth: nat, n: nat, previous: Option<nat>)
    : (r: Result<Parsed<map<nat, Value>>, Status>)
    requires offset <= |data|
    ensures r.Ok? ==> offset <= r.value.offset <= |data|
    decreases |data| - offset, 1
  {
    if n == 0 then Ok(Parsed(map[], offset, items))
    else
      var current :- DecodeItem(data, offset, items, depth + 1, false, true);
      var k := current.value.n;
      if previous.Some? && k <= previous.value then Err(if k == previous.value then Duplicate else Malformed)
      else
        var v :- DecodeItem(data, current.offset, current.items, depth + 1, false, false);
        var rest :- DecodeEntries(data, v.offset, v.items, depth, n - 1, Some(k));
        Ok(Parsed(map[k := v.value] + rest.value, rest.offset, rest.items))
  }

  function DecodeDocument(data: seq<byte>): Result<Value, Status> {
    if |data| > MAX_BYTES then Err(Oversize)
    else
      var parsed :- DecodeItem(data, 0, 0, 0, true, false);
      if parsed.offset != |data| then Err(Malformed) else Ok(parsed.value)
  }

  // ---------------------------------------------------------------- encoding

  /** The output so far and the number of items begun. */
  datatype Output = Output(bytes: seq<byte>, items: nat)

  function Append(out: Output, s: seq<byte>): Output {
    out.(bytes := out.bytes + s)
  }

  function EncodeItem(v: Value, depth: nat, out: Output): Result<Output, Status>
    decreases v, 1
  {
    var begun := out.(items := out.items + 1);
    if begun.items > MAX_ITEMS then Err(Oversize)
    else
      var done :- EncodeBody(v, depth, begun);
      if |done.bytes| > MAX_BYTES then Err(Oversize) else Ok(done)
  }

  function EncodeBody(v: Value, depth: nat, out: Output): Result<Output, Status>
    decreases v, 0
  {
    match v
    case Int(n) => if 0 <= n < U64 then Ok(Append(out, Head(0, n))) else Err(Oversize)
    case Bytes(raw) =>
      if |raw| > MAX_BYTES then Err(Oversize) else Ok(Append(out, Head(2, |raw|) + raw))
    case Text(t) =>
      if |t| > MAX_BYTES then Err(Oversize)
      else
        var raw := Utf8.Encode(t);
        if raw.None? then Err(Malformed)
        else if |raw.value| >= U64 then Err(Oversize)
        else Ok(Append(out, Head(3, |raw.value|) + raw.value))
    case List(vs) =>
      if depth >= MAX_DEPTH || |vs| > MAX_ITEMS then Err(Oversize)
      else EncodeElements(vs, depth, Append(out, Head(4, |vs|)))
    case Dict(m) =>
      if depth >= MAX_DEPTH || |m| > MAX_ITEMS / 2 then Err(Oversize)
      else if exists k: nat :: k in m && k >= U64 then Err(Malformed)
      else
        SortedKeysMembers(m.Keys);
        EncodeEntries(v, SortedKeys(m.Keys), depth, Append(out, Head(5, |m|)))
    case Record(size) =>
      if depth >= MAX_DEPTH || size > MAX_ITEMS / 2 then Err(Oversize) else Err(Malformed)
    case Other => Err(UnsupportedMessage)
  }

  /** A map key goes through the same item routine as any other integer. */
  function EncodeKey(k: nat, out: Output): Result<Output, Status> {
    if out.items + 1 > MAX_ITEMS || k >= U64 || |out.bytes + Head(0, k)| > MAX_BYTES then Err(Oversize)
    else Ok(Output(out.bytes + Head(0, k), out.items + 1))
  }

  function EncodeElements(vs: seq<Value>, depth: nat, out: Output): Result<Output, Status>
    decreases vs, 0
  {
    if vs == [] then Ok(out)
    else
      var next :- EncodeItem(vs[0], depth + 1, out);
      EncodeElements(vs[1..], depth, next)
  }

  function EncodeEntries(v: Value, ks: seq<nat>, depth: nat, out: Output): Result<Output, Status>
    requires v.Dict? && forall i :: 0 <= i < |ks| ==> ks[i] in v.entries
    decreases v, 0, |ks|
  {
    if ks == [] then Ok(out)
    else
      var next :- EncodeKey(ks[0], out);
      var after :- EncodeItem(v.entries[ks[0]], depth + 1, next);
      EncodeEntries(v, ks[1..], depth, after)
  }

  function EncodeDocument(v: Value): Result<seq<byte>, Status> {
    if !v.Dict? && !v.Record? then Err(Malformed)
    else
      var out :- EncodeItem(v, 0, Output([], 0));
      Ok(out.bytes)
  }
}
