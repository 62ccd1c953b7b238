/** The decoder and the encoder are inverse: every document has one spelling and every value that
 *  fits has one document. */
module CborProofs {
  import opened Prelude
  import Utf8
  import opened Cbor

  // ---------------------------------------------------------------- heads

  lemma Pow256Values()
    ensures Pow256(1) == 256
    ensures Pow256(2) == 65536
    ensures Pow256(4) == 4294967296
    ensures Pow256(8) == U64
  {
    assert Pow256(2) == 65536;
    assert Pow256(3) == 256 * Pow256(2);
    assert Pow256(4) == 256 * Pow256(3);
    assert Pow256(5) == 256 * Pow256(4);
    assert Pow256(6) == 256 * Pow256(5);
    assert Pow256(7) == 256 * Pow256(6);
    assert Pow256(8) == 256 * Pow256(7);
  }

  /** An accepted head is the shortest head of what it says (section 4.2.1 of RFC 8949). */
  lemma ReadHeadSound(data: seq<byte>, offset: nat)
    requires offset <= |data| && ReadHead(data, offset).Ok?
    ensures var h := ReadHead(data, offset).value;
            && KnownMajor(h.major)
            && h.argument < U64
            && Head(h.major, h.argument) == data[offset..h.next]
  {
    var h := ReadHead(data, offset).value;
    var additional := data[offset] % 32;
    if additional >= 24 {
      var s := data[offset + 1..h.next];
      Pow256Values();
      FromBigEndianRoundTrip(s);
      hide Pow256, BigEndian, FromBigEndian;
      assert Additional(h.argument) == additional;
      assert data[offset..h.next] == [data[offset]] + s;
    }
  }

  /** A head is read back whatever follows it. */
  lemma ReadHeadComplete(data: seq<byte>, offset: nat, major: nat, argument: nat)
    requires KnownMajor(major) && argument < U64 && offset <= |data|
    requires Head(major, argument) <= data[offset..]
    ensures ReadHead(data, offset) == Ok(HeadInfo(major, argument, offset + |Head(major, argument)|))
  {
    var head := Head(major, argument);
    assert data[offset] == data[offset..][0] == head[0];
    if argument >= 24 {
      var a := Additional(argument);
      var w := Width(a);
      FirstByte(major, a);
      assert data[offset + 1..offset + 1 + w] == BigEndian(argument, w) by {
        hide BigEndian;
        assert data[offset + 1..offset + 1 + w] == data[offset..][1..1 + w];
        assert head[1..1 + w] == BigEndian(argument, w);
      }
      WidthFits(argument);
      BigEndianRoundTrip(argument, w);
      hide BigEndian, FromBigEndian;
    } else {
      FirstByte(major, argument);
    }
  }

  lemma FirstByte(major: nat, additional: nat)
    requires major < 8 && additional < 32
    ensures (major * 32 + additional) / 32 == major && (major * 32 + additional) % 32 == additional
  {
  }

  /** The announced width holds the argument, and the argument needs it. */
  lemma WidthFits(argument: nat)
    requires 24 <= argument < U64
    ensures Floor(Additional(argument)) <= argument < Pow256(Width(Additional(argument)))
  {
    Pow256Values();
    hide Pow256;
  }

  /** Integer order is the bytewise order of the encoded keys required by section 4.2.1 of RFC 8949. */
  lemma KeyOrder(a: nat, b: nat)
    requires a < U64 && b < U64
    ensures LexLess(Head(0, a), Head(0, b)) <==> a < b
  {
    if a < 24 && b < 24 {
      assert Head(0, a)[1..] == [] == Head(0, b)[1..];
    } else if a >= 24 && b >= 24 && Additional(a) == Additional(b) {
      var w := Width(Additional(a));
      WidthFits(a);
      WidthFits(b);
      BigEndianOrder(a, b, w);
      assert Head(0, a)[1..] == BigEndian(a, w) && Head(0, b)[1..] == BigEndian(b, w);
    }
  }

  // ---------------------------------------------------------------- entries of a dict

  lemma {:induction false} SortedKeysPrepend(k: nat, s: set<nat>)
    requires forall x: nat :: x in s ==> k < x
    ensures SortedKeys(s + {k}) == [k] + SortedKeys(s)
  {
    SortedKeysMembers(s);
    SortedKeysIncreasing(s);
    var ks := [k] + SortedKeys(s);
    assert StrictlyIncreasing(ks) by {
      forall j | 0 < j < |ks| ensures k < ks[j] {
        assert ks[j] == SortedKeys(s)[j - 1] && SortedKeys(s)[j - 1] in SortedKeys(s);
      }
    }
    forall x: nat ensures x in ks <==> x in s + {k} {
      if x in s { assert x in SortedKeys(s); }
    }
    SortedKeysUnique(s + {k}, ks);
  }

  ghost predicate Listed(v: Value, ks: seq<nat>) {
    v.Dict? && forall i :: 0 <= i < |ks| ==> ks[i] in v.entries
  }

  /** Spelling and counting a list of entries look at nothing but those entries. */
  lemma {:induction false} EntriesFrame(v: Value, w: Value, ks: seq<nat>)
    requires Listed(v, ks) && Listed(w, ks)
    requires forall i :: 0 <= i < |ks| ==> v.entries[ks[i]] == w.entries[ks[i]]
    ensures SpellEntries(v, ks) == SpellEntries(w, ks)
    ensures CountEntries(v, ks) == CountEntries(w, ks)
  {
    if ks != [] {
      EntriesFrame(v, w, ks[1..]);
    }
  }

  lemma SortedListed(v: Value)
    requires v.Dict?
    ensures Listed(v, SortedKeys(v.entries.Keys))
  {
    SortedKeysMembers(v.entries.Keys);
  }

  function EntriesSpelling(m: map<nat, Value>): seq<byte> {
    SortedKeysMembers(m.Keys);
    SpellEntries(Dict(m), SortedKeys(m.Keys))
  }

  function EntriesCount(m: map<nat, Value>): nat {
    SortedKeysMembers(m.Keys);
    CountEntries(Dict(m), SortedKeys(m.Keys))
  }

  lemma KeysPrepend(k: nat, x: Value, m: map<nat, Value>)
    requires forall j: nat :: j in m ==> k < j
    ensures SortedKeys((map[k := x] + m).Keys) == [k] + SortedKeys(m.Keys)
    ensures |map[k := x] + m| == |m| + 1
    ensures forall i :: 0 <= i < |SortedKeys(m.Keys)| ==> SortedKeys(m.Keys)[i] in m
  {
    var all := map[k := x] + m;
    assert all.Keys == m.Keys + {k};
    SortedKeysPrepend(k, m.Keys);
    SortedKeysMembers(m.Keys);
    assert |all| == |SortedKeys(all.Keys)| && |m| == |SortedKeys(m.Keys)|;
    forall i | 0 <= i < |SortedKeys(m.Keys)| ensures SortedKeys(m.Keys)[i] in m {
      assert SortedKeys(m.Keys)[i] in SortedKeys(m.Keys);
    }
  }

  /** Adding an entry with a key below all others puts it first. */
  lemma {:induction false} EntriesPrepend(k: nat, x: Value, m: map<nat, Value>)
    requires k < U64 && forall j: nat :: j in m ==> k < j
    ensures EntriesSpelling(map[k := x] + m) == Head(0, k) + Spell(x) + EntriesSpelling(m)
    ensures EntriesCount(map[k := x] + m) == 1 + Count(x) + EntriesCount(m)
  {
    var all, ks := map[k := x] + m, SortedKeys(m.Keys);
    hide *;
    KeysPrepend(k, x, m);
    EntriesFold(all);
    EntriesFold(m);
    assert ([k] + ks)[0] == k && ([k] + ks)[1..] == ks;
    AllListed(k, x, m, ks);
    EntriesFrame(Dict(all), Dict(m), ks);
    SpellEntriesStep(Dict(all), [k] + ks);
  }

  lemma EntriesFold(m: map<nat, Value>)
    ensures Listed(Dict(m), SortedKeys(m.Keys))
    ensures EntriesSpelling(m) == SpellEntries(Dict(m), SortedKeys(m.Keys))
    ensures EntriesCount(m) == CountEntries(Dict(m), SortedKeys(m.Keys))
  {
    SortedListed(Dict(m));
    hide SortedKeys, SpellEntries, CountEntries;
  }

  lemma AllListed(k: nat, x: Value, m: map<nat, Value>, ks: seq<nat>)
    requires (forall j: nat :: j in m ==> k < j) && Listed(Dict(m), ks)
    ensures var all := map[k := x] + m;
            && Listed(Dict(all), ks) && Listed(Dict(all), [k] + ks)
            && k in all && all[k] == x
            && (forall i :: 0 <= i < |ks| ==> ks[i] in all && ks[i] in m && all[ks[i]] == m[ks[i]])
  {
  }

  // ---------------------------------------------------------------- what is accepted

  /** `v` stands in data[offset..next], counted from `before` to `after`, within all limits. */
  ghost predicate SoundItem(data: seq<byte>, offset: nat, before: nat, depth: nat, p: Parsed<Value>) {
    && offset < p.offset <= |data|
    && data[offset..p.offset] == Spell(p.value)
    && p.items == before + Count(p.value) <= MAX_ITEMS
    && Fits(p.value, depth)
  }

  ghost predicate SoundElements(data: seq<byte>, offset: nat, before: nat, depth: nat, n: nat, p: Parsed<seq<Value>>) {
    && offset <= p.offset <= |data|
    && |p.value| == n
    && data[offset..p.offset] == SpellAll(p.value)
    && p.items == before + CountAll(p.value) <= MAX_ITEMS
    && forall i :: 0 <= i < n ==> Fits(p.value[i], depth + 1)
  }

  ghost predicate SoundEntries(data: seq<byte>, offset: nat, before: nat, depth: nat, n: nat, previous: Option<nat>,
                               p: Parsed<map<nat, Value>>) {
    && offset <= p.offset <= |data|
    && |p.value| == n
    && data[offset..p.offset] == EntriesSpelling(p.value)
    && p.items == before + EntriesCount(p.value) <= MAX_ITEMS
    && (forall k: nat :: k in p.value ==> k < U64 && Fits(p.value[k], depth + 1))
    && (previous.Some? ==> forall k: nat :: k in p.value ==> previous.value < k)
  }

  lemma Adjacent(data: seq<byte>, i: nat, j: nat, k: nat)
    requires i <= j <= k <= |data|
    ensures data[i..k] == data[i..j] + data[j..k]
  {
  }

  /** What an item decodes to spells exactly the bytes consumed, and fits. */
  lemma {:induction false} DecodeItemSound(data: seq<byte>, offset: nat, items: nat, depth: nat, root: bool, key: bool)
    requires offset <= |data| && DecodeItem(data, offset, items, depth, root, key).Ok?
    ensures SoundItem(data, offset, items, depth, DecodeItem(data, offset, items, depth, root, key).value)
    ensures root ==> DecodeItem(data, offset, items, depth, root, key).value.value.Dict?
    decreases |data| - offset, 0
  {
    var p, head := DecodeItemUnfold(data, offset, items, depth, root, key);
    hide *;
    ReadHeadSound(data, offset);
    Adjacent(data, offset, head.next, p.offset);
    if head.major == 0 {
      IntSound(data, offset, head, items, depth, p);
    } else if head.major == 2 || head.major == 3 {
      StringSound(data, offset, head, items, depth, p);
    } else if head.major == 4 {
      var vs := ListUnfold(data, head, items + 1, depth, p);
      DecodeElementsSound(data, head.next, items + 1, depth, head.argument);
      ListSound(data, offset, head, items, depth, p, vs);
    } else {
      var m := DictUnfold(data, head, items + 1, depth, p);
      DecodeEntriesSound(data, head.next, items + 1, depth, head.argument, None);
      DictSound(data, offset, head, items, depth, p, m);
    }
  }

  lemma DecodeItemUnfold(data: seq<byte>, offset: nat, items: nat, depth: nat, root: bool, key: bool)
    returns (p: Parsed<Value>, head: HeadInfo)
    requires offset <= |data| && DecodeItem(data, offset, items, depth, root, key).Ok?
    ensures DecodeItem(data, offset, items, depth, root, key) == Ok(p)
    ensures ReadHead(data, offset) == Ok(head) && offset < head.next <= p.offset <= |data|
    ensures KnownMajor(head.major) && DecodeContent(data, head, items + 1, depth) == Ok(p) && items < MAX_ITEMS
    ensures root ==> head.major == 5
  {
    ReadHeadSound(data, offset);
    hide ReadHead, DecodeContent, Head;
    p := DecodeItem(data, offset, items, depth, root, key).value;
    head := ReadHead(data, offset).value;
  }

  ghost predicate Headed(data: seq<byte>, offset: nat, head: HeadInfo, p: Parsed<Value>) {
    && offset < head.next <= p.offset <= |data|
    && KnownMajor(head.major) && head.argument < U64
    && data[offset..p.offset] == Head(head.major, head.argument) + data[head.next..p.offset]
  }

  lemma IntSound(data: seq<byte>, offset: nat, head: HeadInfo, items: nat, depth: nat, p: Parsed<Value>)
    requires Headed(data, offset, head, p) && items < MAX_ITEMS && head.major == 0
    requires DecodeContent(data, head, items + 1, depth) == Ok(p)
    ensures SoundItem(data, offset, items, depth, p)
  {
  }

  lemma StringSound(data: seq<byte>, offset: nat, head: HeadInfo, items: nat, depth: nat, p: Parsed<Value>)
    requires Headed(data, offset, head, p) && items < MAX_ITEMS && (head.major == 2 || head.major == 3)
    requires DecodeContent(data, head, items + 1, depth) == Ok(p)
    ensures SoundItem(data, offset, items, depth, p)
  {
    hide Head, DecodeContent, Spell, Fits, Count, Utf8.Encode, Utf8.Decode;
    var raw := data[head.next..p.offset];
    StringUnfold(data, head, items + 1, depth, p);
    StringSpelled(p.value, raw, depth);
    if head.major == 3 {
      Utf8.CodecBijection(raw, p.value.characters);
    }
  }

  lemma StringUnfold(data: seq<byte>, head: HeadInfo, items: nat, depth: nat, p: Parsed<Value>)
    requires head.next <= p.offset <= |data| && (head.major == 2 || head.major == 3)
    requires DecodeContent(data, head, items, depth) == Ok(p)
    ensures p.items == items
    ensures var raw := data[head.next..p.offset];
            && |raw| == head.argument <= MAX_BYTES
            && (head.major == 2 ==> p.value == Bytes(raw))
            && (head.major == 3 ==> p.value.Text? && Utf8.Decode(raw) == Some(p.value.characters))
  {
    hide Utf8.Decode;
  }

  lemma StringSpelled(v: Value, raw: seq<byte>, depth: nat)
    requires |raw| <= MAX_BYTES
    ensures v == Bytes(raw) ==> Fits(v, depth) && Count(v) == 1 && Spell(v) == Head(2, |raw|) + raw
    ensures v.Text? && Utf8.Encode(v.characters) == Some(raw) ==>
              Fits(v, depth) && Count(v) == 1 && Spell(v) == Head(3, |raw|) + raw
  {
    hide Head, Utf8.Encode;
  }

  lemma ListUnfold(data: seq<byte>, head: HeadInfo, items: nat, depth: nat, p: Parsed<Value>)
    returns (vs: Parsed<seq<Value>>)
    requires head.next <= |data| && head.major == 4 && DecodeContent(data, head, items, depth) == Ok(p)
    ensures DecodeElements(data, head.next, items, depth, head.argument) == Ok(vs)
    ensures p == Parsed(List(vs.value), vs.offset, vs.items)
    ensures depth < MAX_DEPTH && head.argument <= MAX_ITEMS
  {
    hide DecodeElements;
    vs := DecodeElements(data, head.next, items, depth, head.argument).value;
  }

  lemma ListSound(data: seq<byte>, offset: nat, head: HeadInfo, items: nat, depth: nat, p: Parsed<Value>,
                  vs: Parsed<seq<Value>>)
    requires Headed(data, offset, head, p) && items < MAX_ITEMS && head.major == 4
    requires depth < MAX_DEPTH && head.argument <= MAX_ITEMS
    requires SoundElements(data, head.next, items + 1, depth, head.argument, vs)
    requires p == Parsed(List(vs.value), vs.offset, vs.items)
    ensures SoundItem(data, offset, items, depth, p)
  {
    hide SpellAll, CountAll, Head;
  }

  lemma DictUnfold(data: seq<byte>, head: HeadInfo, items: nat, depth: nat, p: Parsed<Value>)
    returns (m: Parsed<map<nat, Value>>)
    requires head.next <= |data| && head.major == 5 && DecodeContent(data, head, items, depth) == Ok(p)
    ensures DecodeEntries(data, head.next, items, depth, head.argument, None) == Ok(m)
    ensures p == Parsed(Dict(m.value), m.offset, m.items)
    ensures depth < MAX_DEPTH && head.argument <= MAX_ITEMS / 2
  {
    hide DecodeEntries;
    m := DecodeEntries(data, head.next, items, depth, head.argument, None).value;
  }

  lemma DictSound(data: seq<byte>, offset: nat, head: HeadInfo, items: nat, depth: nat, p: Parsed<Value>,
                  m: Parsed<map<nat, Value>>)
    requires Headed(data, offset, head, p) && items < MAX_ITEMS && head.major == 5
    requires depth < MAX_DEPTH && head.argument <= MAX_ITEMS / 2
    requires SoundEntries(data, head.next, items + 1, depth, head.argument, None, m)
    requires p == Parsed(Dict(m.value), m.offset, m.items)
    ensures SoundItem(data, offset, items, depth, p)
  {
    hide SpellEntries, CountEntries, Head;
  }

  lemma {:induction false} DecodeElementsSound(data: seq<byte>, offset: nat, items: nat, depth: nat, n: nat)
    requires offset <= |data| && items <= MAX_ITEMS && DecodeElements(data, offset, items, depth, n).Ok?
    ensures SoundElements(data, offset, items, depth, n, DecodeElements(data, offset, items, depth, n).value)
    decreases |data| - offset, 1
  {
    if n > 0 {
      var first, rest := ElementsUnfold(data, offset, items, depth, n);
      hide *;
      DecodeItemSound(data, offset, items, depth + 1, false, false);
      SoundItemBounds(data, offset, items, depth + 1, first);
      DecodeElementsSound(data, first.offset, first.items, depth, n - 1);
      SoundElementsStep(data, offset, items, depth, n, first, rest);
    }
  }

  lemma SoundItemBounds(data: seq<byte>, offset: nat, before: nat, depth: nat, p: Parsed<Value>)
    requires SoundItem(data, offset, before, depth, p)
    ensures offset < p.offset <= |data| && p.items <= MAX_ITEMS
  {
  }

  lemma ElementsUnfold(data: seq<byte>, offset: nat, items: nat, depth: nat, n: nat)
    returns (first: Parsed<Value>, rest: Parsed<seq<Value>>)
    requires n > 0 && offset <= |data| && DecodeElements(data, offset, items, depth, n).Ok?
    ensures DecodeItem(data, offset, items, depth + 1, false, false) == Ok(first) && offset < first.offset <= |data|
    ensures DecodeElements(data, first.offset, first.items, depth, n - 1) == Ok(rest)
    ensures DecodeElements(data, offset, items, depth, n)
         == Ok(Parsed([first.value] + rest.value, rest.offset, rest.items))
  {
    hide DecodeItem;
    first := DecodeItem(data, offset, items, depth + 1, false, false).value;
    rest := DecodeElements(data, first.offset, first.items, depth, n - 1).value;
  }

  lemma SoundElementsStep(data: seq<byte>, offset: nat, items: nat, depth: nat, n: nat,
                          first: Parsed<Value>, rest: Parsed<seq<Value>>)
    requires n > 0
    requires SoundItem(data, offset, items, depth + 1, first)
    requires SoundElements(data, first.offset, first.items, depth, n - 1, rest)
    ensures SoundElements(data, offset, items, depth, n, Parsed([first.value] + rest.value, rest.offset, rest.items))
  {
    hide Spell, Count, Fits;
    assert ([first.value] + rest.value)[1..] == rest.value;
    Adjacent(data, offset, first.offset, rest.offset);
  }

  lemma NoEntriesSound(data: seq<byte>, offset: nat, items: nat, depth: nat, previous: Option<nat>)
    requires offset <= |data| && items <= MAX_ITEMS && DecodeEntries(data, offset, items, depth, 0, previous).Ok?
    ensures SoundEntries(data, offset, items, depth, 0, previous,
                         DecodeEntries(data, offset, items, depth, 0, previous).value)
  {
  }

  lemma {:induction false} DecodeEntriesSound(data: seq<byte>, offset: nat, items: nat, depth: nat, n: nat,
                                              previous: Option<nat>)
    requires offset <= |data| && items <= MAX_ITEMS
    requires DecodeEntries(data, offset, items, depth, n, previous).Ok?
    ensures SoundEntries(data, offset, items, depth, n, previous,
                         DecodeEntries(data, offset, items, depth, n, previous).value)
    decreases |data| - offset, 1
  {
    hide *;
    if n == 0 {
      NoEntriesSound(data, offset, items, depth, previous);
    } else {
      var current, x, rest := EntriesUnfold(data, offset, items, depth, n, previous);
      DecodeItemSound(data, offset, items, depth + 1, false, true);
      SoundItemBounds(data, offset, items, depth + 1, current);
      DecodeItemSound(data, current.offset, current.items, depth + 1, false, false);
      SoundItemBounds(data, current.offset, current.items, depth + 1, x);
      DecodeEntriesSound(data, x.offset, x.items, depth, n - 1, Some(current.value.n));
      SoundEntriesStep(data, offset, items, depth, n, previous, current, x, rest);
    }
  }

  lemma EntriesUnfold(data: seq<byte>, offset: nat, items: nat, depth: nat, n: nat, previous: Option<nat>)
    returns (current: Parsed<Value>, x: Parsed<Value>, rest: Parsed<map<nat, Value>>)
    requires n > 0 && offset <= |data| && DecodeEntries(data, offset, items, depth, n, previous).Ok?
    ensures DecodeItem(data, offset, items, depth + 1, false, true) == Ok(current) && offset < current.offset <= |data|
    ensures current.value.Int? && current.value.n >= 0
    ensures previous.Some? ==> previous.value < current.value.n
    ensures DecodeItem(data, current.offset, current.items, depth + 1, false, false) == Ok(x) && x.offset <= |data|
    ensures current.offset < x.offset
    ensures DecodeEntries(data, x.offset, x.items, depth, n - 1, Some(current.value.n)) == Ok(rest)
    ensures DecodeEntries(data, offset, items, depth, n, previous)
         == Ok(Parsed(map[current.value.n := x.value] + rest.value, rest.offset, rest.items))
  {
    hide DecodeItem;
    current := DecodeItem(data, offset, items, depth + 1, false, true).value;
    x := DecodeItem(data, current.offset, current.items, depth + 1, false, false).value;
    rest := DecodeEntries(data, x.offset, x.items, depth, n - 1, Some(current.value.n)).value;
  }

  lemma SoundEntriesStep(data: seq<byte>, offset: nat, items: nat, depth: nat, n: nat, previous: Option<nat>,
                         current: Parsed<Value>, x: Parsed<Value>, rest: Parsed<map<nat, Value>>)
    requires n > 0 && current.value.Int? && current.value.n >= 0
    requires SoundItem(data, offset, items, depth + 1, current)
    requires SoundItem(data, current.offset, current.items, depth + 1, x)
    requires SoundEntries(data, x.offset, x.items, depth, n - 1, Some(current.value.n), rest)
    requires previous.Some? ==> previous.value < current.value.n
    ensures SoundEntries(data, offset, items, depth, n, previous,
                         Parsed(map[current.value.n := x.value] + rest.value, rest.offset, rest.items))
  {
    hide Spell, Count, Head, Fits, EntriesSpelling, EntriesCount, SortedKeys;
    var k: nat := current.value.n;
    KeySpelling(data, offset, items, depth + 1, current);
    KeysPrepend(k, x.value, rest.value);
    EntriesPrepend(k, x.value, rest.value);
    Adjacent3(data, offset, current.offset, x.offset, rest.offset);
    KeysWithin(k, x.value, rest.value, depth, previous);
  }

  lemma KeysWithin(k: nat, x: Value, m: map<nat, Value>, depth: nat, previous: Option<nat>)
    requires k < U64 && Fits(x, depth + 1) && (previous.Some? ==> previous.value < k)
    requires forall j: nat :: j in m ==> k < j < U64 && Fits(m[j], depth + 1)
    ensures var all := map[k := x] + m;
            forall j: nat :: j in all ==> j < U64 && Fits(all[j], depth + 1) && (previous.Some? ==> previous.value < j)
  {
    hide Fits;
  }

  lemma KeySpelling(data: seq<byte>, offset: nat, items: nat, depth: nat, current: Parsed<Value>)
    requires SoundItem(data, offset, items, depth, current) && current.value.Int?
    ensures 0 <= current.value.n < U64 && Spell(current.value) == Head(0, current.value.n) && Count(current.value) == 1
  {
    hide Head;
  }

  lemma Adjacent3(data: seq<byte>, i: nat, j: nat, k: nat, l: nat)
    requires i <= j <= k <= l <= |data|
    ensures data[i..l] == data[i..j] + data[j..k] + data[k..l]
  {
  }

  // ---------------------------------------------------------------- what is decoded

  /** A concatenation found at a place is its first part there and the rest behind it. */
  lemma SplitAt(a: seq<byte>, b: seq<byte>, data: seq<byte>, offset: nat)
    requires offset <= |data| && a + b <= data[offset..]
    ensures offset + |a| <= |data| && a <= data[offset..] && b <= data[offset + |a|..]
    ensures data[offset..offset + |a|] == a
  {
    assert a <= a + b;
    assert data[offset + |a|..] == data[offset..][|a|..];
    assert b == (a + b)[|a|..];
  }

  function MajorOf(v: Value): (major: nat)
    requires !v.Record? && !v.Other?
    ensures KnownMajor(major)
  {
    match v
    case Int(_) => 0
    case Bytes(_) => 2
    case Text(_) => 3
    case List(_) => 4
    case Dict(_) => 5
  }

  function ArgumentOf(v: Value, depth: nat): (n: nat)
    requires Fits(v, depth)
    ensures n < U64
  {
    match v
    case Int(n) => n
    case Bytes(raw) => |raw|
    case Text(t) => |Utf8.Encode(t).value|
    case List(vs) => |vs|
    case Dict(m) => |m|
  }

  function ContentOf(v: Value): seq<byte> {
    match v
    case Bytes(raw) => raw
    case Text(t) => Utf8.Encode(t).GetOr([])
    case List(vs) => SpellAll(vs)
    case Dict(m) => EntriesSpelling(m)
    case _ => []
  }

  lemma SpellParts(v: Value, depth: nat) returns (major: nat, argument: nat)
    requires Fits(v, depth)
    ensures !v.Record? && !v.Other?
    ensures major == MajorOf(v) && argument == ArgumentOf(v, depth)
    ensures KnownMajor(major) && major < 8 && argument < U64
    ensures Spell(v) == Head(major, argument) + ContentOf(v)
    ensures (v.Dict? ==> major == 5) && (v.Int? ==> major == 0)
  {
    major, argument := MajorOf(v), ArgumentOf(v, depth);
  }

  /** An item that fits decodes to itself wherever it is written, whatever follows it. */
  lemma {:induction false} DecodeItemComplete(v: Value, data: seq<byte>, offset: nat, items: nat, depth: nat,
                                              root: bool, key: bool)
    requires Fits(v, depth) && items + Count(v) <= MAX_ITEMS && offset <= |data|
    requires Spell(v) <= data[offset..]
    requires (root ==> v.Dict?) && (key ==> v.Int?)
    ensures DecodeItem(data, offset, items, depth, root, key)
         == Ok(Parsed(v, offset + |Spell(v)|, items + Count(v)))
    decreases v, 2
  {
    hide *;
    var major, argument := SpellParts(v, depth);
    CountPositive(v);
    var head, content := Head(major, argument), ContentOf(v);
    var h := HeadInfo(major, argument, offset + |head|);
    SplitAt(head, content, data, offset);
    ReadHeadComplete(data, offset, major, argument);
    DecodeContentComplete(v, data, h, items + 1, depth);
    DecodeItemFold(data, offset, items, depth, root, key, h, Parsed(v, h.next + |content|, items + Count(v)));
  }

  lemma {:induction false} DecodeContentComplete(v: Value, data: seq<byte>, head: HeadInfo, items: nat, depth: nat)
    requires Fits(v, depth) && items - 1 + Count(v) <= MAX_ITEMS && head.next <= |data|
    requires head.major == MajorOf(v) && head.argument == ArgumentOf(v, depth)
    requires ContentOf(v) <= data[head.next..]
    ensures DecodeContent(data, head, items, depth)
         == Ok(Parsed(v, head.next + |ContentOf(v)|, items - 1 + Count(v)))
    decreases v, 1
  {
    CountPositive(v);
    hide Spell, Count, Fits, DecodeContent, DecodeElements, DecodeEntries, SpellAll, CountAll, EntriesSpelling, EntriesCount;
    assert !v.Record? && !v.Other? by { KindKnown(v, depth); }
    match v {
      case Int(n) => IntComplete(v, data, head, items, depth);
      case Bytes(_) => StringComplete(v, data, head, items, depth);
      case Text(_) => StringComplete(v, data, head, items, depth);
      case List(vs) =>
        ListFits(v, depth);
        DecodeElementsComplete(vs, data, head.next, items, depth);
        ListComplete(v, data, head, items, depth);
      case Dict(m) =>
        DictEntriesComplete(v, data, head.next, items, depth);
        DictComplete(v, data, head, items, depth);
    }
  }

  lemma KindKnown(v: Value, depth: nat)
    requires Fits(v, depth)
    ensures !v.Record? && !v.Other?
  {
  }

  lemma CountPositive(v: Value)
    ensures Count(v) >= 1
    ensures v.List? ==> Count(v) == 1 + CountAll(v.elements)
    ensures v.Dict? ==> Count(v) == 1 + EntriesCount(v.entries)
  {
  }

  lemma ListFits(v: Value, depth: nat)
    requires v.List? && Fits(v, depth)
    ensures forall i :: 0 <= i < |v.elements| ==> Fits(v.elements[i], depth + 1)
  {
  }

  lemma DecodeItemFold(data: seq<byte>, offset: nat, items: nat, depth: nat, root: bool, key: bool,
                       head: HeadInfo, p: Parsed<Value>)
    requires offset <= |data| && ReadHead(data, offset) == Ok(head) && items < MAX_ITEMS && head.next <= |data|
    requires (root ==> head.major == 5) && (key ==> head.major == 0)
    requires DecodeContent(data, head, items + 1, depth) == Ok(p)
    ensures DecodeItem(data, offset, items, depth, root, key) == Ok(p)
  {
    hide ReadHead, DecodeContent;
  }

  lemma IntComplete(v: Value, data: seq<byte>, head: HeadInfo, items: nat, depth: nat)
    requires v.Int? && Fits(v, depth) && head.next <= |data| && head.major == 0 && head.argument == v.n
    ensures DecodeContent(data, head, items, depth) == Ok(Parsed(v, head.next, items - 1 + Count(v)))
  {
  }

  lemma StringComplete(v: Value, data: seq<byte>, head: HeadInfo, items: nat, depth: nat)
    requires (v.Bytes? || v.Text?) && Fits(v, depth) && head.next <= |data|
    requires head.major == MajorOf(v) && head.argument == ArgumentOf(v, depth)
    requires ContentOf(v) <= data[head.next..]
    ensures DecodeContent(data, head, items, depth)
         == Ok(Parsed(v, head.next + |ContentOf(v)|, items - 1 + Count(v)))
  {
    SplitAt(ContentOf(v), [], data, head.next);
    if v.Text? {
      Utf8.EncodeDecode(v.characters);
    }
  }

  lemma ListComplete(v: Value, data: seq<byte>, head: HeadInfo, items: nat, depth: nat)
    requires v.List? && Fits(v, depth) && head.next <= |data|
    requires head.major == 4 && head.argument == |v.elements|
    requires DecodeElements(data, head.next, items, depth, |v.elements|)
          == Ok(Parsed(v.elements, head.next + |ContentOf(v)|, items + CountAll(v.elements)))
    ensures DecodeContent(data, head, items, depth)
         == Ok(Parsed(v, head.next + |ContentOf(v)|, items - 1 + Count(v)))
  {
    hide DecodeElements, SpellAll, CountAll;
  }

  lemma DictComplete(v: Value, data: seq<byte>, head: HeadInfo, items: nat, depth: nat)
    requires v.Dict? && Fits(v, depth) && head.next <= |data|
    requires head.major == 5 && head.argument == |v.entries|
    requires DecodeEntries(data, head.next, items, depth, |v.entries|, None)
          == Ok(Parsed(v.entries, head.next + |ContentOf(v)|, items + EntriesCount(v.entries)))
    ensures DecodeContent(data, head, items, depth)
         == Ok(Parsed(v, head.next + |ContentOf(v)|, items - 1 + Count(v)))
  {
    hide DecodeEntries, SpellEntries, CountEntries;
  }

  lemma {:induction false} DictEntriesComplete(v: Value, data: seq<byte>, offset: nat, items: nat, depth: nat)
    requires v.Dict? && Fits(v, depth)
    requires items + EntriesCount(v.entries) <= MAX_ITEMS && offset <= |data|
    requires EntriesSpelling(v.entries) <= data[offset..]
    ensures DecodeEntries(data, offset, items, depth, |v.entries|, None)
         == Ok(Parsed(v.entries, offset + |EntriesSpelling(v.entries)|, items + EntriesCount(v.entries)))
    decreases v, 0, |v.entries| + 1
  {
    hide *;
    var ks: seq<nat> := SortedKeys(v.entries.Keys);
    DictEntriesFit(v, depth);
    DecodeEntriesComplete(v, ks, data, offset, items, depth, None);
  }

  ghost predicate EntriesFit(v: Value, ks: seq<nat>, depth: nat) {
    && Listed(v, ks)
    && StrictlyIncreasing(ks)
    && forall i :: 0 <= i < |ks| ==> ks[i] < U64 && Fits(v.entries[ks[i]], depth + 1)
  }

  lemma DictEntriesFit(v: Value, depth: nat)
    requires v.Dict? && Fits(v, depth)
    ensures var ks := SortedKeys(v.entries.Keys);
            && EntriesFit(v, ks, depth) && Listed(v, ks) && |ks| == |v.entries| && Restrict(v, ks) == v.entries
            && EntriesSpelling(v.entries) == SpellEntries(v, ks) && EntriesCount(v.entries) == CountEntries(v, ks)
  {
    var ks: seq<nat> := SortedKeys(v.entries.Keys);
    SortedListed(v);
    SortedKeysIncreasing(v.entries.Keys);
    SortedEntriesFit(v, ks, depth);
    RestrictAll(v);
    assert |v.entries.Keys| == |v.entries|;
    hide Fits, SpellEntries, CountEntries, EntriesFit, Restrict;
  }

  lemma SortedEntriesFit(v: Value, ks: seq<nat>, depth: nat)
    requires v.Dict? && Fits(v, depth) && Listed(v, ks) && StrictlyIncreasing(ks)
    ensures EntriesFit(v, ks, depth)
  {
    assert forall k: nat :: k in v.entries ==> k < U64 && Fits(v.entries[k], depth + 1);
    hide Fits;
    forall i | 0 <= i < |ks| ensures ks[i] in v.entries && ks[i] < U64 && Fits(v.entries[ks[i]], depth + 1) {
    }
  }

  lemma RestrictAll(v: Value)
    requires v.Dict?
    ensures Restrict(v, SortedKeys(v.entries.Keys)) == v.entries
  {
    SortedKeysMembers(v.entries.Keys);
    assert forall k: nat :: k in v.entries ==> k in SortedKeys(v.entries.Keys);
  }

  lemma SpellAllStep(vs: seq<Value>)
    requires vs != []
    ensures SpellAll(vs) == Spell(vs[0]) + SpellAll(vs[1..])
    ensures CountAll(vs) == Count(vs[0]) + CountAll(vs[1..])
    ensures vs == [vs[0]] + vs[1..]
  {
  }

  lemma DecodeElementsStep(data: seq<byte>, offset: nat, items: nat, depth: nat, n: nat,
                           first: Parsed<Value>, rest: Parsed<seq<Value>>)
    requires n > 0 && offset <= |data| && first.offset <= |data|
    requires DecodeItem(data, offset, items, depth + 1, false, false) == Ok(first)
    requires DecodeElements(data, first.offset, first.items, depth, n - 1) == Ok(rest)
    ensures DecodeElements(data, offset, items, depth, n)
         == Ok(Parsed([first.value] + rest.value, rest.offset, rest.items))
  {
    hide DecodeItem;
  }

  lemma NoElementsComplete(data: seq<byte>, offset: nat, items: nat, depth: nat)
    requires offset <= |data|
    ensures DecodeElements(data, offset, items, depth, 0)
         == Ok(Parsed([], offset + |SpellAll([])|, items + CountAll([])))
  {
  }

  lemma {:induction false} DecodeElementsComplete(vs: seq<Value>, data: seq<byte>, offset: nat, items: nat, depth: nat)
    requires forall i :: 0 <= i < |vs| ==> Fits(vs[i], depth + 1)
    requires items + CountAll(vs) <= MAX_ITEMS && offset <= |data|
    requires SpellAll(vs) <= data[offset..]
    ensures DecodeElements(data, offset, items, depth, |vs|)
         == Ok(Parsed(vs, offset + |SpellAll(vs)|, items + CountAll(vs)))
    decreases vs, 0
  {
    hide *;
    if vs == [] {
      NoElementsComplete(data, offset, items, depth);
    } else {
      var first, rest := Spell(vs[0]), SpellAll(vs[1..]);
      SpellAllStep(vs);
      SplitAt(first, rest, data, offset);
      DecodeItemComplete(vs[0], data, offset, items, depth + 1, false, false);
      var middle, count := offset + |first|, items + Count(vs[0]);
      DecodeElementsComplete(vs[1..], data, middle, count, depth);
      DecodeElementsStep(data, offset, items, depth, |vs|, Parsed(vs[0], middle, count),
                         Parsed(vs[1..], middle + |rest|, count + CountAll(vs[1..])));
    }
  }

  function Restrict(v: Value, ks: seq<nat>): map<nat, Value>
    requires v.Dict?
  {
    map k: nat | k in ks && k in v.entries :: v.entries[k]
  }

  lemma SpellEntriesStep(v: Value, ks: seq<nat>)
    requires Listed(v, ks) && ks != [] && ks[0] < U64
    ensures SpellEntries(v, ks) == Head(0, ks[0]) + (Spell(v.entries[ks[0]]) + SpellEntries(v, ks[1..]))
    ensures CountEntries(v, ks) == 1 + Count(v.entries[ks[0]]) + CountEntries(v, ks[1..])
  {
    hide Spell, Count, Head;
  }

  lemma RestrictStep(v: Value, ks: seq<nat>)
    requires Listed(v, ks) && ks != [] && StrictlyIncreasing(ks)
    ensures Restrict(v, ks) == map[ks[0] := v.entries[ks[0]]] + Restrict(v, ks[1..])
  {
    assert ks == [ks[0]] + ks[1..];
    assert ks[0] !in ks[1..];
  }

  lemma DecodeEntriesStep(data: seq<byte>, offset: nat, items: nat, depth: nat, n: nat, previous: Option<nat>,
                          current: Parsed<Value>, x: Parsed<Value>, rest: Parsed<map<nat, Value>>)
    requires n > 0 && offset <= |data| && current.offset <= |data| && x.offset <= |data|
    requires DecodeItem(data, offset, items, depth + 1, false, true) == Ok(current)
    requires current.value.Int? && current.value.n >= 0
    requires previous.Some? ==> previous.value < current.value.n
    requires DecodeItem(data, current.offset, current.items, depth + 1, false, false) == Ok(x)
    requires DecodeEntries(data, x.offset, x.items, depth, n - 1, Some(current.value.n)) == Ok(rest)
    ensures DecodeEntries(data, offset, items, depth, n, previous)
         == Ok(Parsed(map[current.value.n := x.value] + rest.value, rest.offset, rest.items))
  {
    hide DecodeItem;
  }

  lemma EntriesFitStep(v: Value, ks: seq<nat>, depth: nat)
    requires EntriesFit(v, ks, depth) && ks != []
    ensures v.Dict? && forall i :: 0 <= i < |ks| ==> ks[i] in v.entries
    ensures forall i :: 0 <= i < |ks[1..]| ==> ks[1..][i] in v.entries
    ensures Listed(v, ks[1..]) && EntriesFit(v, ks[1..], depth) && StrictlyIncreasing(ks)
    ensures ks[0] in v.entries && ks[0] < U64 && Fits(v.entries[ks[0]], depth + 1)
    ensures ks[1..] != [] ==> ks[0] < ks[1..][0]
  {
    hide Fits;
  }

  lemma NoEntriesComplete(v: Value, ks: seq<nat>, data: seq<byte>, offset: nat, items: nat, depth: nat,
                          previous: Option<nat>)
    requires Listed(v, ks) && ks == [] && offset <= |data|
    ensures DecodeEntries(data, offset, items, depth, |ks|, previous)
         == Ok(Parsed(Restrict(v, ks), offset + |SpellEntries(v, ks)|, items + CountEntries(v, ks)))
  {
    assert Restrict(v, ks) == map[];
  }

  lemma {:induction false} DecodeEntriesComplete(v: Value, ks: seq<nat>, data: seq<byte>, offset: nat, items: nat,
                                                 depth: nat, previous: Option<nat>)
    requires Listed(v, ks) && EntriesFit(v, ks, depth)
    requires previous.Some? && ks != [] ==> previous.value < ks[0]
    requires items + CountEntries(v, ks) <= MAX_ITEMS && offset <= |data|
    requires SpellEntries(v, ks) <= data[offset..]
    ensures DecodeEntries(data, offset, items, depth, |ks|, previous)
         == Ok(Parsed(Restrict(v, ks), offset + |SpellEntries(v, ks)|, items + CountEntries(v, ks)))
    decreases v, 0, |ks|
  {
    hide *;
    if ks == [] {
      NoEntriesComplete(v, ks, data, offset, items, depth, previous);
    } else {
      EntriesFitStep(v, ks, depth);
      var k, x, rest := ks[0], v.entries[ks[0]], ks[1..];
      SpellEntriesStep(v, ks);
      RestrictStep(v, ks);
      CountPositive(x);
      var s, t, u := Head(0, k), Spell(x), SpellEntries(v, rest);
      SplitAt(s, t + u, data, offset);
      DecodeKeyComplete(k, data, offset, items, depth + 1);
      var middle := offset + |s|;
      SplitAt(t, u, data, middle);
      DecodeItemComplete(x, data, middle, items + 1, depth + 1, false, false);
      var next, count := middle + |t|, items + 1 + Count(x);
      DecodeEntriesComplete(v, rest, data, next, count, depth, Some(k));
      DecodeEntriesStep(data, offset, items, depth, |ks|, previous, Parsed(Int(k), middle, items + 1),
                        Parsed(x, next, count),
                        Parsed(Restrict(v, rest), next + |u|, count + CountEntries(v, rest)));
    }
  }

  lemma DecodeKeyComplete(k: nat, data: seq<byte>, offset: nat, items: nat, depth: nat)
    requires k < U64 && items < MAX_ITEMS && offset <= |data| && Head(0, k) <= data[offset..]
    ensures DecodeItem(data, offset, items, depth, false, true) == Ok(Parsed(Int(k), offset + |Head(0, k)|, items + 1))
  {
    ReadHeadComplete(data, offset, 0, k);
  }

  // ---------------------------------------------------------------- truncation

  lemma HeadPrefix(data: seq<byte>, k: nat, offset: nat)
    requires offset <= k <= |data| && ReadHead(data, offset).Ok?
    ensures ReadHead(data, offset).value.next <= k ==> ReadHead(data[..k], offset) == ReadHead(data, offset)
    ensures k < ReadHead(data, offset).value.next ==> ReadHead(data[..k], offset) == Err(Incomplete)
  {
    var next := ReadHead(data, offset).value.next;
    if next <= k {
      assert data[..k][offset + 1..next] == data[offset + 1..next];
    }
  }

  /** With the bookkeeping out of the way an item is its head and its content. */
  lemma DecodeItemShape(data: seq<byte>, offset: nat, items: nat, depth: nat, root: bool, key: bool)
    requires offset <= |data| && items < MAX_ITEMS
    ensures ReadHead(data, offset).Err? ==> DecodeItem(data, offset, items, depth, root, key).Err?
    ensures ReadHead(data, offset).Err? ==>
              DecodeItem(data, offset, items, depth, root, key).error == ReadHead(data, offset).error
    ensures ReadHead(data, offset).Ok? ==>
              var head := ReadHead(data, offset).value;
              (root ==> head.major == 5) && (key ==> head.major == 0) ==>
                DecodeItem(data, offset, items, depth, root, key) == DecodeContent(data, head, items + 1, depth)
  {
    hide ReadHead, DecodeContent;
  }

  /** Cutting the input at `k` loses exactly the items that reach past `k`, and loses them as incomplete. */
  ghost predicate CutAt<T>(k: nat, whole: Parsed<T>, cut: Result<Parsed<T>, Status>) {
    cut == if whole.offset <= k then Ok(whole) else Err(Incomplete)
  }

  lemma {:induction false} DecodeItemPrefix(data: seq<byte>, k: nat, offset: nat, items: nat, depth: nat,
                                            root: bool, key: bool)
    requires offset <= k <= |data| && DecodeItem(data, offset, items, depth, root, key).Ok?
    ensures CutAt(k, DecodeItem(data, offset, items, depth, root, key).value,
                  DecodeItem(data[..k], offset, items, depth, root, key))
    decreases |data| - offset, 0
  {
    var p, head := DecodeItemUnfold(data, offset, items, depth, root, key);
    assert key ==> head.major == 0 by { hide ReadHead, DecodeContent; }
    HeadPrefix(data, k, offset);
    DecodeItemShape(data[..k], offset, items, depth, root, key);
    hide ReadHead, DecodeItem, DecodeContent;
    if head.next <= k {
      DecodeContentPrefix(data, k, head, items + 1, depth);
    }
  }

  lemma {:induction false} DecodeContentPrefix(data: seq<byte>, k: nat, head: HeadInfo, items: nat, depth: nat)
    requires head.next <= k <= |data| && DecodeContent(data, head, items, depth).Ok? && KnownMajor(head.major)
    ensures CutAt(k, DecodeContent(data, head, items, depth).value, DecodeContent(data[..k], head, items, depth))
    decreases |data| - head.next, 2
  {
    var p := DecodeContent(data, head, items, depth).value;
    if head.major == 2 || head.major == 3 {
      StringPrefix(data, k, head, items);
    } else if head.major == 4 {
      var vs := ListUnfold(data, head, items, depth, p);
      DecodeElementsPrefix(data, k, head.next, items, depth, head.argument);
    } else if head.major == 5 {
      var m := DictUnfold(data, head, items, depth, p);
      DecodeEntriesPrefix(data, k, head.next, items, depth, head.argument, None);
    }
  }

  lemma StringPrefix(data: seq<byte>, k: nat, head: HeadInfo, items: nat)
    requires head.next <= k <= |data| && DecodeString(data, head, items).Ok?
    ensures CutAt(k, DecodeString(data, head, items).value, DecodeString(data[..k], head, items))
  {
    var next := head.next + head.argument;
    if next <= k {
      assert data[..k][head.next..next] == data[head.next..next];
    }
  }

  lemma {:induction false} DecodeElementsPrefix(data: seq<byte>, k: nat, offset: nat, items: nat, depth: nat, n: nat)
    requires offset <= k <= |data| && DecodeElements(data, offset, items, depth, n).Ok?
    ensures CutAt(k, DecodeElements(data, offset, items, depth, n).value,
                  DecodeElements(data[..k], offset, items, depth, n))
    decreases |data| - offset, 1
  {
    if n > 0 {
      var first, rest := ElementsUnfold(data, offset, items, depth, n);
      DecodeItemPrefix(data, k, offset, items, depth + 1, false, false);
      hide DecodeItem;
      if first.offset <= k {
        DecodeElementsPrefix(data, k, first.offset, first.items, depth, n - 1);
      }
    }
  }

  lemma {:induction false} DecodeEntriesPrefix(data: seq<byte>, k: nat, offset: nat, items: nat, depth: nat, n: nat,
                                               previous: Option<nat>)
    requires offset <= k <= |data| && DecodeEntries(data, offset, items, depth, n, previous).Ok?
    ensures CutAt(k, DecodeEntries(data, offset, items, depth, n, previous).value,
                  DecodeEntries(data[..k], offset, items, depth, n, previous))
    decreases |data| - offset, 1
  {
    if n > 0 {
      var current, x, rest := EntriesUnfold(data, offset, items, depth, n, previous);
      DecodeItemPrefix(data, k, offset, items, depth + 1, false, true);
      hide DecodeItem;
      if current.offset <= k {
        DecodeItemPrefix(data, k, current.offset, current.items, depth + 1, false, false);
        if x.offset <= k {
          DecodeEntriesPrefix(data, k, x.offset, x.items, depth, n - 1, Some(current.value.n));
        }
      }
    }
  }

  // ---------------------------------------------------------------- the encoder

  /** Encoding `v` behind `out` has room for it. */
  ghost predicate Room(out: Output, bytes: nat, items: nat) {
    out.items + items <= MAX_ITEMS && |out.bytes| + bytes <= MAX_BYTES
  }

  function Extend(out: Output, s: seq<byte>, n: nat): Output {
    Output(out.bytes + s, out.items + n)
  }

  lemma ExtendTwice(out: Output, a: seq<byte>, m: nat, b: seq<byte>, n: nat)
    ensures Extend(Extend(out, a, m), b, n) == Extend(out, a + b, m + n)
    ensures Append(out, a) == Extend(out, a, 0)
    ensures Extend(out, [], 0) == out
  {
    assert (out.bytes + a) + b == out.bytes + (a + b);
    assert out.bytes + [] == out.bytes;
  }

  /** The encoder emits the spelling of every value that fits, and nothing else, provided there is room. */
  lemma {:induction false} EncodeItemSound(v: Value, depth: nat, out: Output)
    requires EncodeItem(v, depth, out).Ok?
    ensures Fits(v, depth) && Room(out, |Spell(v)|, Count(v))
    ensures EncodeItem(v, depth, out) == Ok(Extend(out, Spell(v), Count(v)))
    decreases v, 1
  {
    var begun, done := EncodeItemUnfold(v, depth, out);
    EncodeBodySound(v, depth, begun);
    CountPositive(v);
    hide EncodeItem, EncodeBody, Spell, Count, Fits;
  }

  lemma {:induction false} EncodeBodySound(v: Value, depth: nat, begun: Output)
    requires begun.items <= MAX_ITEMS && EncodeBody(v, depth, begun).Ok?
    ensures Fits(v, depth) || (v.Text? && Utf8.Encode(v.characters).Some?)
    ensures |EncodeBody(v, depth, begun).value.bytes| <= MAX_BYTES ==> Fits(v, depth)
    ensures begun.items + Count(v) - 1 <= MAX_ITEMS
    ensures EncodeBody(v, depth, begun) == Ok(Extend(begun, Spell(v), Count(v) - 1))
    decreases v, 0
  {
    CountPositive(v);
    match v
    case Int(_) =>
    case Bytes(_) =>
    case Text(_) =>
    case List(vs) =>
      ListBodySound(v, depth, begun);
    case Dict(m) =>
      DictBodySound(v, depth, begun);
    case Record(_) =>
    case Other =>
  }

  lemma {:induction false} ListBodySound(v: Value, depth: nat, begun: Output)
    requires v.List? && begun.items <= MAX_ITEMS && EncodeBody(v, depth, begun).Ok?
    ensures Fits(v, depth) && begun.items + Count(v) - 1 <= MAX_ITEMS
    ensures EncodeBody(v, depth, begun) == Ok(Extend(begun, Spell(v), Count(v) - 1))
    decreases v, 0, 0
  {
    var vs := v.elements;
    CountPositive(v);
    EncodeElementsSound(vs, depth, Append(begun, Head(4, |vs|)));
    ListEncoded(v, depth, begun);
    hide *;
  }

  lemma {:induction false} DictBodySound(v: Value, depth: nat, begun: Output)
    requires v.Dict? && begun.items <= MAX_ITEMS && EncodeBody(v, depth, begun).Ok?
    ensures Fits(v, depth) && begun.items + Count(v) - 1 <= MAX_ITEMS
    ensures EncodeBody(v, depth, begun) == Ok(Extend(begun, Spell(v), Count(v) - 1))
    decreases v, 0, |v.entries| + 1
  {
    CountPositive(v);
    SortedListed(v);
    DictEncodeUnfold(v, depth, begun);
    EncodeEntriesSound(v, SortedKeys(v.entries.Keys), depth, Append(begun, Head(5, |v.entries|)));
    DictEncoded(v, depth, begun);
    hide EncodeEntries, EncodeBody, Spell, Count, Fits;
  }

  lemma EncodeItemUnfold(v: Value, depth: nat, out: Output) returns (begun: Output, done: Output)
    requires EncodeItem(v, depth, out).Ok?
    ensures begun == Output(out.bytes, out.items + 1) && begun.items <= MAX_ITEMS
    ensures EncodeBody(v, depth, begun) == Ok(done) && |done.bytes| <= MAX_BYTES
    ensures EncodeItem(v, depth, out) == Ok(done)
  {
    hide EncodeBody;
    begun := out.(items := out.items + 1);
    done := EncodeBody(v, depth, begun).value;
  }

  lemma ListEncoded(v: Value, depth: nat, begun: Output)
    requires v.List? && EncodeBody(v, depth, begun).Ok?
    requires var vs := v.elements; var start := Append(begun, Head(4, |vs|));
             && (forall i :: 0 <= i < |vs| ==> Fits(vs[i], depth + 1))
             && EncodeElements(vs, depth, start) == Ok(Extend(start, SpellAll(vs), CountAll(vs)))
    ensures Fits(v, depth) && EncodeBody(v, depth, begun) == Ok(Extend(begun, Spell(v), Count(v) - 1))
  {
    hide EncodeElements, SpellAll, CountAll, Head;
    ExtendTwice(begun, Head(4, |v.elements|), 0, SpellAll(v.elements), CountAll(v.elements));
  }

  lemma DictEncodeUnfold(v: Value, depth: nat, begun: Output)
    requires v.Dict? && Listed(v, SortedKeys(v.entries.Keys)) && EncodeBody(v, depth, begun).Ok?
    ensures EncodeEntries(v, SortedKeys(v.entries.Keys), depth, Append(begun, Head(5, |v.entries|)))
         == EncodeBody(v, depth, begun)
    ensures depth < MAX_DEPTH && |v.entries| <= MAX_ITEMS / 2
    ensures forall k: nat :: k in v.entries ==> k < U64
  {
    hide EncodeEntries;
  }

  lemma DictEncoded(v: Value, depth: nat, begun: Output)
    requires v.Dict? && EncodeBody(v, depth, begun).Ok?
    requires depth < MAX_DEPTH && |v.entries| <= MAX_ITEMS / 2
    requires forall k: nat :: k in v.entries ==> k < U64
    requires var ks := SortedKeys(v.entries.Keys); var start := Append(begun, Head(5, |v.entries|));
             && Listed(v, ks)
             && (forall i :: 0 <= i < |ks| ==> Fits(v.entries[ks[i]], depth + 1))
             && EncodeBody(v, depth, begun) == Ok(Extend(start, SpellEntries(v, ks), CountEntries(v, ks)))
    ensures Fits(v, depth) && EncodeBody(v, depth, begun) == Ok(Extend(begun, Spell(v), Count(v) - 1))
  {
    hide EncodeBody, SpellEntries, CountEntries, Head;
    var ks: seq<nat> := SortedKeys(v.entries.Keys);
    SortedKeysMembers(v.entries.Keys);
    forall k: nat | k in v.entries ensures Fits(v.entries[k], depth + 1) {
      assert k in ks;
    }
    ExtendTwice(begun, Head(5, |v.entries|), 0, SpellEntries(v, ks), CountEntries(v, ks));
  }

  lemma {:induction false} EncodeElementsSound(vs: seq<Value>, depth: nat, out: Output)
    requires out.items <= MAX_ITEMS && EncodeElements(vs, depth, out).Ok?
    ensures out.items + CountAll(vs) <= MAX_ITEMS
    ensures forall i :: 0 <= i < |vs| ==> Fits(vs[i], depth + 1)
    ensures EncodeElements(vs, depth, out) == Ok(Extend(out, SpellAll(vs), CountAll(vs)))
    decreases vs, 0
  {
    if vs != [] {
      var next := EncodeElementsUnfold(vs, depth, out);
      SpellAllStep(vs);
      hide EncodeItem, EncodeElements, Spell, Count, Fits, SpellAll, CountAll;
      EncodeItemSound(vs[0], depth + 1, out);
      EncodeElementsSound(vs[1..], depth, next);
      ExtendTwice(out, Spell(vs[0]), Count(vs[0]), SpellAll(vs[1..]), CountAll(vs[1..]));
    } else {
      ExtendTwice(out, [], 0, [], 0);
    }
  }

  lemma EncodeElementsUnfold(vs: seq<Value>, depth: nat, out: Output) returns (next: Output)
    requires vs != [] && EncodeElements(vs, depth, out).Ok?
    ensures EncodeItem(vs[0], depth + 1, out) == Ok(next) && EncodeElements(vs[1..], depth, next).Ok?
    ensures EncodeElements(vs, depth, out) == EncodeElements(vs[1..], depth, next)
  {
    hide EncodeItem;
    next := EncodeItem(vs[0], depth + 1, out).value;
  }

  lemma {:induction false} EncodeEntriesSound(v: Value, ks: seq<nat>, depth: nat, out: Output)
    requires Listed(v, ks) && out.items <= MAX_ITEMS && EncodeEntries(v, ks, depth, out).Ok?
    ensures out.items + CountEntries(v, ks) <= MAX_ITEMS
    ensures forall i :: 0 <= i < |ks| ==> Fits(v.entries[ks[i]], depth + 1)
    ensures EncodeEntries(v, ks, depth, out) == Ok(Extend(out, SpellEntries(v, ks), CountEntries(v, ks)))
    decreases v, 0, |ks|
  {
    hide EncodeItem, EncodeEntries, Spell, Count, Fits, Head, SpellEntries, CountEntries;
    if ks != [] {
      var next, after := EncodeEntriesUnfold(v, ks, depth, out);
      var x := v.entries[ks[0]];
      EncodeItemSound(x, depth + 1, next);
      EncodeEntriesSound(v, ks[1..], depth, after);
      SpellEntriesStep(v, ks);
      ExtendTwice(next, Spell(x), Count(x), SpellEntries(v, ks[1..]), CountEntries(v, ks[1..]));
      ExtendTwice(out, Head(0, ks[0]), 1, Spell(x) + SpellEntries(v, ks[1..]), Count(x) + CountEntries(v, ks[1..]));
    } else {
      NoEntriesEncoded(v, ks, depth, out);
    }
  }

  lemma NoEntriesEncoded(v: Value, ks: seq<nat>, depth: nat, out: Output)
    requires Listed(v, ks) && ks == []
    ensures CountEntries(v, ks) == 0
    ensures EncodeEntries(v, ks, depth, out) == Ok(Extend(out, SpellEntries(v, ks), CountEntries(v, ks)))
  {
    ExtendTwice(out, [], 0, [], 0);
  }

  lemma EncodeEntriesUnfold(v: Value, ks: seq<nat>, depth: nat, out: Output) returns (next: Output, after: Output)
    requires Listed(v, ks) && ks != [] && EncodeEntries(v, ks, depth, out).Ok?
    ensures ks[0] < U64 && out.items < MAX_ITEMS && next == Output(out.bytes + Head(0, ks[0]), out.items + 1)
    ensures EncodeItem(v.entries[ks[0]], depth + 1, next) == Ok(after)
    ensures EncodeEntries(v, ks[1..], depth, after).Ok?
    ensures EncodeEntries(v, ks, depth, out) == EncodeEntries(v, ks[1..], depth, after)
  {
    hide EncodeItem, Head;
    next := EncodeKey(ks[0], out).value;
    after := EncodeItem(v.entries[ks[0]], depth + 1, next).value;
  }

  lemma {:induction false} EncodeItemComplete(v: Value, depth: nat, out: Output)
    requires Fits(v, depth) && Room(out, |Spell(v)|, Count(v))
    ensures EncodeItem(v, depth, out) == Ok(Extend(out, Spell(v), Count(v)))
    decreases v, 1
  {
    var begun := out.(items := out.items + 1);
    CountPositive(v);
    EncodeBodyComplete(v, depth, begun);
    EncodeItemShape(v, depth, out);
    hide EncodeItem, EncodeBody, Spell, Count, Fits;
  }

  lemma EncodeItemShape(v: Value, depth: nat, out: Output)
    requires out.items < MAX_ITEMS && EncodeBody(v, depth, out.(items := out.items + 1)).Ok?
    requires |EncodeBody(v, depth, out.(items := out.items + 1)).value.bytes| <= MAX_BYTES
    ensures EncodeItem(v, depth, out) == EncodeBody(v, depth, out.(items := out.items + 1))
  {
    hide EncodeBody;
  }

  lemma {:induction false} EncodeBodyComplete(v: Value, depth: nat, begun: Output)
    requires Fits(v, depth) && Room(begun, |Spell(v)|, Count(v) - 1)
    ensures EncodeBody(v, depth, begun) == Ok(Extend(begun, Spell(v), Count(v) - 1))
    decreases v, 0
  {
    CountPositive(v);
    match v
    case Int(_) =>
    case Bytes(_) =>
    case Text(t) => Utf8.EncodeDecode(t);
    case List(vs) =>
      ListFits(v, depth);
      hide EncodeElements, SpellAll, CountAll, Head;
      EncodeElementsComplete(vs, depth, Append(begun, Head(4, |vs|)));
      ListEncoded(v, depth, begun);
    case Dict(m) =>
      DictBodyComplete(v, depth, begun);
  }

  lemma {:induction false} DictBodyComplete(v: Value, depth: nat, begun: Output)
    requires v.Dict? && Fits(v, depth) && Room(begun, |Spell(v)|, Count(v) - 1)
    ensures EncodeBody(v, depth, begun) == Ok(Extend(begun, Spell(v), Count(v) - 1))
    decreases v, 0, |v.entries| + 1
  {
    hide *;
    var ks: seq<nat> := SortedKeys(v.entries.Keys);
    DictBodyUnfold(v, depth, begun);
    DictSpelling(v);
    DictEntriesFit(v, depth);
    RoomBehind(begun, Head(5, |v.entries|), SpellEntries(v, ks), CountEntries(v, ks));
    EncodeEntriesComplete(v, ks, depth, Extend(begun, Head(5, |v.entries|), 0));
    ExtendTwice(begun, Head(5, |v.entries|), 0, SpellEntries(v, ks), CountEntries(v, ks));
  }

  lemma RoomBehind(out: Output, a: seq<byte>, b: seq<byte>, items: nat)
    requires Room(out, |a + b|, items)
    ensures Room(Extend(out, a, 0), |b|, items)
  {
  }

  lemma DictSpelling(v: Value)
    requires v.Dict? && |v.entries| < U64
    ensures Listed(v, SortedKeys(v.entries.Keys))
    ensures forall i :: 0 <= i < |SortedKeys(v.entries.Keys)| ==> SortedKeys(v.entries.Keys)[i] in v.entries
    ensures Spell(v) == Head(5, |v.entries|) + SpellEntries(v, SortedKeys(v.entries.Keys))
    ensures Count(v) == 1 + CountEntries(v, SortedKeys(v.entries.Keys))
  {
    SortedListed(v);
  }

  lemma DictBodyUnfold(v: Value, depth: nat, begun: Output)
    requires v.Dict? && Fits(v, depth)
    ensures |v.entries| < U64 && Listed(v, SortedKeys(v.entries.Keys))
    ensures EncodeBody(v, depth, begun)
         == EncodeEntries(v, SortedKeys(v.entries.Keys), depth, Extend(begun, Head(5, |v.entries|), 0))
  {
    SortedListed(v);
    hide EncodeEntries, Head;
  }

  lemma {:induction false} EncodeElementsComplete(vs: seq<Value>, depth: nat, out: Output)
    requires forall i :: 0 <= i < |vs| ==> Fits(vs[i], depth + 1)
    requires Room(out, |SpellAll(vs)|, CountAll(vs))
    ensures EncodeElements(vs, depth, out) == Ok(Extend(out, SpellAll(vs), CountAll(vs)))
    decreases vs, 0
  {
    if vs != [] {
      SpellAllStep(vs);
      EncodeElementsShape(vs, depth, out);
      hide EncodeItem, EncodeElements, Spell, Count, Fits, SpellAll, CountAll;
      EncodeItemComplete(vs[0], depth + 1, out);
      var next := Extend(out, Spell(vs[0]), Count(vs[0]));
      EncodeElementsComplete(vs[1..], depth, next);
      ExtendTwice(out, Spell(vs[0]), Count(vs[0]), SpellAll(vs[1..]), CountAll(vs[1..]));
    } else {
      ExtendTwice(out, [], 0, [], 0);
    }
  }

  lemma EncodeElementsShape(vs: seq<Value>, depth: nat, out: Output)
    requires vs != []
    ensures EncodeItem(vs[0], depth + 1, out).Ok? ==>
              EncodeElements(vs, depth, out)
                == EncodeElements(vs[1..], depth, EncodeItem(vs[0], depth + 1, out).value)
  {
    hide EncodeItem;
  }

  lemma {:induction false} EncodeEntriesComplete(v: Value, ks: seq<nat>, depth: nat, out: Output)
    requires Listed(v, ks) && EntriesFit(v, ks, depth)
    requires Room(out, |SpellEntries(v, ks)|, CountEntries(v, ks))
    ensures EncodeEntries(v, ks, depth, out) == Ok(Extend(out, SpellEntries(v, ks), CountEntries(v, ks)))
    decreases v, 0, |ks|
  {
    hide EncodeItem, EncodeEntries, Spell, Count, Fits, Head, SpellEntries, CountEntries, EntriesFit;
    if ks != [] {
      EntriesFitStep(v, ks, depth);
      SpellEntriesStep(v, ks);
      var x, rest: seq<byte> := v.entries[ks[0]], SpellEntries(v, ks[1..]);
      var next := Extend(out, Head(0, ks[0]), 1);
      CountPositive(x);
      EncodeEntriesShape(v, ks, depth, out);
      EncodeItemComplete(x, depth + 1, next);
      var after := Extend(next, Spell(x), Count(x));
      EncodeEntriesComplete(v, ks[1..], depth, after);
      ExtendTwice(next, Spell(x), Count(x), rest, CountEntries(v, ks[1..]));
      ExtendTwice(out, Head(0, ks[0]), 1, Spell(x) + rest, Count(x) + CountEntries(v, ks[1..]));
    } else {
      NoEntriesEncoded(v, ks, depth, out);
    }
  }

  lemma EncodeEntriesShape(v: Value, ks: seq<nat>, depth: nat, out: Output)
    requires Listed(v, ks) && ks != [] && ks[0] < U64
    requires out.items < MAX_ITEMS && |out.bytes| + |Head(0, ks[0])| <= MAX_BYTES
    ensures var next := EncodeItem(v.entries[ks[0]], depth + 1, Extend(out, Head(0, ks[0]), 1));
            next.Ok? ==> EncodeEntries(v, ks, depth, out) == EncodeEntries(v, ks[1..], depth, next.value)
  {
    hide EncodeItem, Head;
  }

  // ---------------------------------------------------------------- documents

  /** The values that have a document. */
  ghost predicate Documentable(v: Value) {
    v.Dict? && Fits(v, 0) && Count(v) <= MAX_ITEMS && |Spell(v)| <= MAX_BYTES
  }

  /** The encoder accepts exactly the values within every limit, and writes their spelling. */
  lemma EncodeDocumentMeaning(v: Value, data: seq<byte>)
    ensures EncodeDocument(v) == Ok(data) <==> Documentable(v) && data == Spell(v)
  {
    var empty := Output([], 0);
    assert [] + Spell(v) == Spell(v);
    if EncodeDocument(v).Ok? {
      EncodeItemSound(v, 0, empty);
    }
    if Documentable(v) {
      EncodeItemComplete(v, 0, empty);
    }
  }

  /** The decoder accepts exactly the spellings of those values. */
  lemma DecodeDocumentMeaning(v: Value, data: seq<byte>)
    ensures DecodeDocument(data) == Ok(v) <==> Documentable(v) && data == Spell(v)
  {
    hide Spell, Fits, Count, DecodeItem;
    if DecodeDocument(data) == Ok(v) {
      DecodeItemSound(data, 0, 0, 0, true, false);
      assert data[0..|data|] == data;
    }
    if Documentable(v) && data == Spell(v) {
      assert data[0..] == data;
      DecodeItemComplete(v, data, 0, 0, 0, true, false);
    }
  }

  /** Decoding and encoding documents are inverse: each limit is met on one side exactly when it is
      met on the other, each accepted value has one accepted spelling, and it is the encoder's. */
  lemma DocumentBijection(v: Value, data: seq<byte>)
    ensures DecodeDocument(data) == Ok(v) <==> EncodeDocument(v) == Ok(data)
  {
    DecodeDocumentMeaning(v, data);
    EncodeDocumentMeaning(v, data);
  }

  /** Every strict prefix of an accepted document is incomplete. */
  lemma TruncationIncomplete(data: seq<byte>, k: nat)
    requires DecodeDocument(data).Ok? && k < |data|
    ensures DecodeDocument(data[..k]) == Err(Incomplete)
  {
    hide DecodeItem;
    DecodeItemPrefix(data, k, 0, 0, 0, true, false);
  }

  /** Every proper extension of an accepted document is malformed, or too long to be looked at. */
  lemma ExtensionMalformed(data: seq<byte>, more: seq<byte>)
    requires DecodeDocument(data).Ok? && more != []
    ensures DecodeDocument(data + more) == Err(if |data + more| <= MAX_BYTES then Malformed else Oversize)
  {
    hide Spell, Fits, Count, DecodeItem;
    var v := DecodeDocument(data).value;
    DecodeItemSound(data, 0, 0, 0, true, false);
    assert data[0..|data|] == data;
    assert data <= (data + more)[0..];
    DecodeItemComplete(v, data + more, 0, 0, 0, true, false);
  }

  lemma SpellNonEmpty(v: Value, depth: nat)
    requires Fits(v, depth)
    ensures |Spell(v)| >= 1
  {
    var major, argument := SpellParts(v, depth);
    hide Spell;
  }

  /** No item is a prefix of another: what is read is decided by the bytes alone. */
  lemma SpellPrefixFree(v: Value, w: Value, depth: nat, x: seq<byte>, y: seq<byte>)
    requires Fits(v, depth) && Fits(w, depth) && Count(v) <= MAX_ITEMS && Count(w) <= MAX_ITEMS
    requires Spell(v) + x == Spell(w) + y
    ensures v == w && x == y
  {
    hide Spell, Fits, Count, DecodeItem;
    var data := Spell(v) + x;
    assert data[0..] == data;
    DecodeItemComplete(v, data, 0, 0, depth, false, false);
    DecodeItemComplete(w, data, 0, 0, depth, false, false);
    assert x == data[|Spell(v)|..] && y == data[|Spell(w)|..];
  }
}
