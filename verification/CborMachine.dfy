/** The two recursions of tools/ota/cbor.py as they run: a cursor and a counter shared by all nested
 *  decoder calls, and an output buffer and a counter shared by all nested encoder calls. */
module CborMachine {
  import opened Prelude
  import Utf8
  import opened Cbor

  /** What a loop has collected, followed by what the rest of the input yields. */
  ghost function Collected(values: seq<Value>, rest: Result<Parsed<seq<Value>>, Status>)
    : Result<Parsed<seq<Value>>, Status>
  {
    match rest
    case Err(e) => Err(e)
    case Ok(p) => Ok(Parsed(values + p.value, p.offset, p.items))
  }

  lemma CollectedStep(values: seq<Value>, v: Value, rest: Result<Parsed<seq<Value>>, Status>)
    ensures Collected([], rest) == rest
    ensures Collected(values, Collected([v], rest)) == Collected(values + [v], rest)
  {
    if rest.Ok? {
      assert [] + rest.value.value == rest.value.value;
      assert values + ([v] + rest.value.value) == values + [v] + rest.value.value;
    }
  }

  ghost function Merged(value: map<nat, Value>, rest: Result<Parsed<map<nat, Value>>, Status>)
    : Result<Parsed<map<nat, Value>>, Status>
  {
    match rest
    case Err(e) => Err(e)
    case Ok(p) => Ok(Parsed(value + p.value, p.offset, p.items))
  }

  lemma MergedStep(value: map<nat, Value>, k: nat, v: Value, rest: Result<Parsed<map<nat, Value>>, Status>)
    ensures Merged(map[], rest) == rest
    ensures Merged(value, Merged(map[k := v], rest)) == Merged(value[k := v], rest)
  {
    if rest.Ok? {
      assert map[] + rest.value.value == rest.value.value;
      assert value + (map[k := v] + rest.value.value) == value[k := v] + rest.value.value;
    }
  }

  class Decoder {
    const data: seq<byte>
    var offset: nat
    var items: nat

    constructor (data: seq<byte>)
      ensures this.data == data && offset == 0 && items == 0
    {
      this.data := data;
      offset := 0;
      items := 0;
    }

    /** The result and the state after a call are those of the specification. */
    ghost predicate Did(r: Result<Value, Status>, spec: Result<Parsed<Value>, Status>)
      reads this
    {
      match spec
      case Err(e) => r == Err(e)
      case Ok(p) => r == Ok(p.value) && offset == p.offset && items == p.items
    }

    method Item(depth: nat, root: bool, key: bool) returns (r: Result<Value, Status>)
      requires offset <= |data|
      modifies this
      ensures offset <= |data|
      ensures Did(r, DecodeItem(data, old(offset), old(items), depth, root, key))
      decreases |data| - offset, 1
    {
      if items >= MAX_ITEMS {
        return Err(Oversize);
      }
      ghost var before, entry := items, offset;
      if offset == |data| {
        return Err(Incomplete);
      }
      var first := data[offset];
      offset := offset + 1;
      var major, additional, argument: nat := first / 32, first % 32, 0;
      if !KnownMajor(major) {
        return Err(UnsupportedMessage);
      }
      if additional >= 28 {
        return Err(Malformed);
      }
      if additional < 24 {
        argument := additional;
      } else {
        var width := Width(additional);
        if width > |data| - offset {
          return Err(Incomplete);
        }
        argument := FromBigEndian(data[offset..offset + width]);
        offset := offset + width;
        if argument < Floor(additional) {
          return Err(Malformed);
        }
      }
      assert ReadHead(data, entry) == Ok(HeadInfo(major, argument, offset)) by { hide FromBigEndian; }
      hide ReadHead, DecodeContent, FromBigEndian;
      if (root && major != 5) || (key && major != 0) {
        return Err(Malformed);
      }
      items := items + 1;
      r := Content(major, argument, depth);
    }

    /** The part of the routine after the item has been counted. */
    method Content(major: nat, argument: nat, depth: nat) returns (r: Result<Value, Status>)
      requires offset <= |data| && KnownMajor(major)
      modifies this
      ensures offset <= |data|
      ensures Did(r, DecodeContent(data, HeadInfo(major, argument, old(offset)), old(items), depth))
      decreases |data| - offset, 4
    {
      hide DecodeItem, DecodeElements, DecodeEntries, Utf8.Decode;
      if major == 0 {
        return Ok(Int(argument));
      }
      if major == 2 || major == 3 {
        if argument > MAX_BYTES {
          return Err(Oversize);
        }
        if argument > |data| - offset {
          return Err(Incomplete);
        }
        var value := data[offset..offset + argument];
        offset := offset + argument;
        if major == 2 {
          return Ok(Bytes(value));
        }
        var text := Utf8.Decode(value);
        return if text.None? then Err(Malformed) else Ok(Text(text.value));
      }
      var factor := if major == 5 then 2 else 1;
      if depth >= MAX_DEPTH || argument > MAX_ITEMS / factor {
        return Err(Oversize);
      }
      if major == 4 {
        r := Elements(depth, argument);
      } else {
        r := Entries(depth, argument);
      }
    }

    method Elements(depth: nat, n: nat) returns (r: Result<Value, Status>)
      requires offset <= |data|
      modifies this
      ensures offset <= |data|
      ensures var spec := DecodeElements(data, old(offset), old(items), depth, n);
              Did(r, if spec.Err? then Err(spec.error)
                     else Ok(Parsed(List(spec.value.value), spec.value.offset, spec.value.items)))
      decreases |data| - offset, 3
    {
      var values: seq<Value> := [];
      CollectedStep([], Other, DecodeElements(data, offset, items, depth, n));
      for i := 0 to n
        invariant old(offset) <= offset <= |data|
        invariant DecodeElements(data, old(offset), old(items), depth, n)
               == Collected(values, DecodeElements(data, offset, items, depth, n - i))
      {
        hide DecodeItem;
        var value :- Item(depth + 1, false, false);
        CollectedStep(values, value, DecodeElements(data, offset, items, depth, n - i - 1));
        values := values + [value];
      }
      assert values + [] == values;
      r := Ok(List(values));
    }

    method Entries(depth: nat, n: nat) returns (r: Result<Value, Status>)
      requires offset <= |data|
      modifies this
      ensures offset <= |data|
      ensures var spec := DecodeEntries(data, old(offset), old(items), depth, n, None);
              Did(r, if spec.Err? then Err(spec.error)
                     else Ok(Parsed(Dict(spec.value.value), spec.value.offset, spec.value.items)))
      decreases |data| - offset, 3
    {
      var value: map<nat, Value> := map[];
      var previous: Option<nat> := None;
      MergedStep(map[], 0, Other, DecodeEntries(data, offset, items, depth, n, None));
      for i := 0 to n
        invariant old(offset) <= offset <= |data|
        invariant DecodeEntries(data, old(offset), old(items), depth, n, None)
               == Merged(value, DecodeEntries(data, offset, items, depth, n - i, previous))
      {
        hide DecodeItem;
        var current :- Item(depth + 1, false, true);
        var k: nat := current.n;
        if previous.Some? && k <= previous.value {
          return Err(if k == previous.value then Duplicate else Malformed);
        }
        previous := Some(k);
        var child :- Item(depth + 1, false, false);
        MergedStep(value, k, child, DecodeEntries(data, offset, items, depth, n - i - 1, previous));
        value := value[k := child];
      }
      assert value + map[] == value;
      r := Ok(Dict(value));
    }
  }

  method Decode(data: seq<byte>) returns (r: Result<Value, Status>)
    ensures r == DecodeDocument(data)
  {
    if |data| > MAX_BYTES {
      return Err(Oversize);
    }
    hide DecodeItem;
    var decoder := new Decoder(data);
    var value :- decoder.Item(0, true, false);
    if decoder.offset != |data| {
      return Err(Malformed);
    }
    r := Ok(value);
  }

  class Encoder {
    var output: seq<byte>
    var items: nat

    constructor ()
      ensures output == [] && items == 0
    {
      output := [];
      items := 0;
    }

    ghost function State(): Output
      reads this
    {
      Output(output, items)
    }

    ghost predicate Did(failed: Option<Status>, spec: Result<Output, Status>)
      reads this
    {
      match spec
      case Err(e) => failed == Some(e)
      case Ok(out) => failed == None && State() == out
    }

    method PutHead(major: nat, argument: nat)
      requires major < 8 && argument < U64
      modifies this
      ensures State() == Append(old(State()), Head(major, argument))
    {
      hide BigEndian;
      if argument < 24 {
        output := output + [major * 32 + argument];
      } else {
        var width := if argument < 256 then 1 else if argument < 65536 then 2
                     else if argument < 4294967296 then 4 else 8;
        var additional := if width == 1 then 24 else if width == 2 then 25 else if width == 4 then 26 else 27;
        output := output + [major * 32 + additional];
        output := output + BigEndian(argument, width);
        assert old(output) + [major * 32 + additional] + BigEndian(argument, width)
            == old(output) + ([major * 32 + additional] + BigEndian(argument, width));
        assert Head(major, argument) == [major * 32 + additional] + BigEndian(argument, width);
      }
    }

    method Item(current: Value, depth: nat) returns (failed: Option<Status>)
      modifies this
      ensures Did(failed, EncodeItem(current, depth, old(State())))
      decreases current, 1
    {
      hide EncodeBody;
      items := items + 1;
      if items > MAX_ITEMS {
        return Some(Oversize);
      }
      failed := Body(current, depth);
      if failed.None? && |output| > MAX_BYTES {
        failed := Some(Oversize);
      }
    }

    method Body(current: Value, depth: nat) returns (failed: Option<Status>)
      modifies this
      ensures Did(failed, EncodeBody(current, depth, old(State())))
      decreases current, 0, 1
    {
      hide Head, EncodeElements, EncodeEntries;
      match current {
        case Int(n) =>
          if !(0 <= n < U64) {
            return Some(Oversize);
          }
          PutHead(0, n);
          failed := None;
        case Bytes(raw) =>
          if |raw| > MAX_BYTES {
            return Some(Oversize);
          }
          PutHead(2, |raw|);
          Put(raw);
          assert old(output) + Head(2, |raw|) + raw == old(output) + (Head(2, |raw|) + raw);
          failed := None;
        case Text(t) =>
          if |t| > MAX_BYTES {
            return Some(Oversize);
          }
          var raw := Utf8.Encode(t);
          if raw.None? {
            return Some(Malformed);
          }
          if |raw.value| >= U64 {
            return Some(Oversize);
          }
          PutHead(3, |raw.value|);
          Put(raw.value);
          assert old(output) + Head(3, |raw.value|) + raw.value == old(output) + (Head(3, |raw.value|) + raw.value);
          failed := None;
        case List(vs) =>
          if depth >= MAX_DEPTH || |vs| > MAX_ITEMS {
            return Some(Oversize);
          }
          PutHead(4, |vs|);
          failed := Elements(vs, depth);
        case Dict(m) =>
          if depth >= MAX_DEPTH || |m| > MAX_ITEMS / 2 {
            return Some(Oversize);
          }
          PutHead(5, |m|);
          if exists k: nat :: k in m && k >= U64 {
            return Some(Malformed);
          }
          SortedKeysMembers(m.Keys);
          failed := Entries(current, SortedKeys(m.Keys), depth);
        case Record(size) =>
          failed := Some(if depth >= MAX_DEPTH || size > MAX_ITEMS / 2 then Oversize else Malformed);
        case Other =>
          failed := Some(UnsupportedMessage);
      }
    }

    method Put(s: seq<byte>)
      modifies this
      ensures State() == Append(old(State()), s)
    {
      output := output + s;
    }

    method Elements(vs: seq<Value>, depth: nat) returns (failed: Option<Status>)
      modifies this
      ensures Did(failed, EncodeElements(vs, depth, old(State())))
      decreases vs, 0
    {
      assert vs[0..] == vs;
      for i := 0 to |vs|
        invariant EncodeElements(vs, depth, old(State())) == EncodeElements(vs[i..], depth, State())
      {
        hide EncodeItem;
        assert vs[i..][1..] == vs[i + 1..];
        failed := Item(vs[i], depth + 1);
        if failed.Some? {
          return;
        }
      }
      failed := None;
    }

    /** Keys and values in the sorted order `ks`. */
    method Entries(current: Value, ks: seq<nat>, depth: nat) returns (failed: Option<Status>)
      requires current.Dict? && forall i :: 0 <= i < |ks| ==> ks[i] in current.entries
      modifies this
      ensures Did(failed, EncodeEntries(current, ks, depth, old(State())))
      decreases current, 0, 0
    {
      assert ks[0..] == ks;
      for i := 0 to |ks|
        invariant EncodeEntries(current, ks, depth, old(State())) == EncodeEntries(current, ks[i..], depth, State())
      {
        hide EncodeItem, EncodeKey;
        assert ks[i..][1..] == ks[i + 1..];
        failed := Key(ks[i]);
        if failed.Some? {
          return;
        }
        failed := Item(current.entries[ks[i]], depth + 1);
        if failed.Some? {
          return;
        }
      }
      failed := None;
    }

    /** A key passes through `Item` as an integer, whatever its depth. */
    method Key(k: nat) returns (failed: Option<Status>)
      modifies this
      ensures Did(failed, EncodeKey(k, old(State())))
      ensures forall depth: nat :: Did(failed, EncodeItem(Int(k), depth, old(State())))
    {
      items := items + 1;
      if items > MAX_ITEMS || k >= U64 {
        return Some(Oversize);
      }
      PutHead(0, k);
      hide Head;
      failed := if |output| > MAX_BYTES then Some(Oversize) else None;
    }
  }

  method Encode(value: Value) returns (r: Result<seq<byte>, Status>)
    ensures r == EncodeDocument(value)
  {
    if !value.Dict? && !value.Record? {
      return Err(Malformed);
    }
    hide EncodeItem;
    var encoder := new Encoder();
    var failed := encoder.Item(value, 0);
    r := if failed.Some? then Err(failed.value) else Ok(encoder.output);
  }
}
