/** Which status a value gets that has no document: that of the first item, in the order of writing, that cannot be
 *  written. Its place is told by the way to it; the limits are written out. */
module CborEncodeErrors {
  import opened Prelude
  import Utf8
  import opened Cbor
  import opened CborProofs
  import opened CborErrors

  /** One step down: to an element of a list, or to the key or the value of an entry, in the order of the keys. */
  datatype Step = Element(i: nat) | KeyAt(i: nat) | ValueAt(i: nat)

  /** An item that cannot be written where `bytes` bytes and `items` items stand already. */
  ghost predicate Unwritable(v: Value, bytes: nat, items: nat, depth: nat, e: Status) {
    if items >= 2048 then e == Oversize
    else
      match v
      case Int(n) => e == Oversize && (n < 0 || n >= 0x1_0000_0000_0000_0000 || bytes + |Head(0, n)| > 16384)
      case Bytes(raw) => e == Oversize && (|raw| > 16384 || bytes + |Head(2, |raw|)| + |raw| > 16384)
      case Text(t) =>
        if |t| > 16384 then e == Oversize
        else if exists i :: 0 <= i < |t| && 0xD800 <= t[i] <= 0xDFFF then e == Malformed
        else e == Oversize && bytes + |Spell(v)| > 16384
      case List(vs) => e == Oversize && (depth >= 8 || |vs| > 2048 || (vs == [] && bytes + 1 > 16384))
      case Dict(m) =>
        if depth >= 8 || |m| > 1024 then e == Oversize
        else if exists k: nat :: k in m && k >= 0x1_0000_0000_0000_0000 then e == Malformed
        else e == Oversize && m == map[] && bytes + 1 > 16384
      case Record(size) => e == if depth >= 8 || size > 1024 then Oversize else Malformed
      case Other => e == UnsupportedMessage
  }

  ghost predicate KeysFit(v: Value, ks: seq<nat>, depth: nat) {
    Listed(v, ks) && forall i :: 0 <= i < |ks| ==> ks[i] < U64 && Fits(v.entries[ks[i]], depth)
  }

  function SortedKeysOf(v: Value): (ks: seq<nat>)
    requires v.Dict?
    ensures |ks| == |v.entries|
    ensures forall i :: 0 <= i < |ks| ==> ks[i] in v.entries
  {
    SortedKeysMembers(v.entries.Keys);
    SortedKeys(v.entries.Keys)
  }

  /** On this way down comes the first item that cannot be written. */
  ghost predicate UnwritableAt(path: seq<Step>, v: Value, bytes: nat, items: nat, depth: nat, e: Status)
    decreases |path|
  {
    if path == [] then Unwritable(v, bytes, items, depth, e)
    else
      && depth < 8
      && match path[0]
         case Element(i) =>
           && v.List? && i < |v.elements| <= 2048 && AllFit(v.elements[..i], depth + 1)
           && var b, n := bytes + |Start(4, |v.elements|)| + |SpellAll(v.elements[..i])|, items + 1 + CountAll(v.elements[..i]);
              && n <= 2048 && (i > 0 ==> b <= 16384)
              && UnwritableAt(path[1..], v.elements[i], b, n, depth + 1, e)
         case KeyAt(i) =>
           && |path| == 1 && e == Oversize
           && v.Dict? && i < |v.entries| <= 1024 && (forall k: nat :: k in v.entries ==> k < U64)
           && var ks := SortedKeysOf(v);
              && KeysFit(v, ks[..i], depth + 1)
              && var b, n := bytes + |Start(5, |ks|)| + |SpellEntries(v, ks[..i])|, items + 1 + CountEntries(v, ks[..i]);
                 && n <= 2048 && (i > 0 ==> b <= 16384)
                 && (n == 2048 || b + |Start(0, ks[i])| > 16384)
         case ValueAt(i) =>
           && v.Dict? && i < |v.entries| <= 1024 && (forall k: nat :: k in v.entries ==> k < U64)
           && var ks := SortedKeysOf(v);
              && KeysFit(v, ks[..i], depth + 1)
              && var b, n := bytes + |Start(5, |ks|)| + |SpellEntries(v, ks[..i])| + |Start(0, ks[i])|,
                             items + 2 + CountEntries(v, ks[..i]);
                 && n <= 2048 && b <= 16384
                 && UnwritableAt(path[1..], v.entries[ks[i]], b, n, depth + 1, e)
  }

  // ---------------------------------------------------------------- one item

  lemma ItemUnfold(v: Value, depth: nat, out: Output)
    ensures EncodeItem(v, depth, out)
         == if out.items >= 2048 then Err(Oversize)
            else
              var done := EncodeBody(v, depth, Output(out.bytes, out.items + 1));
              if done.Err? then Err(done.error) else if |done.value.bytes| > 16384 then Err(Oversize) else done
  {
    hide EncodeBody;
  }

  lemma SurrogateUnencodable(t: seq<Utf8.codepoint>)
    ensures Utf8.Encode(t).None? <==> exists i :: 0 <= i < |t| && 0xD800 <= t[i] <= 0xDFFF
  {
    if t != [] {
      SurrogateUnencodable(t[1..]);
      if i :| 0 <= i < |t| && 0xD800 <= t[i] <= 0xDFFF {
        assert i > 0 ==> t[1..][i - 1] == t[i];
      }
      if i :| 0 <= i < |t[1..]| && 0xD800 <= t[1..][i] <= 0xDFFF {
        assert t[i + 1] == t[1..][i];
      }
    }
  }

  /** Leaves and containers that are not entered. */
  lemma LeafUnwritable(v: Value, depth: nat, out: Output, e: Status)
    requires !v.List? && !v.Dict?
    ensures EncodeItem(v, depth, out) == Err(e) <==> Unwritable(v, |out.bytes|, out.items, depth, e)
  {
    ItemUnfold(v, depth, out);
    if v.Text? {
      SurrogateUnencodable(v.characters);
      if Utf8.Encode(v.characters).Some? {
        TextSize(v.characters);
      }
    }
    hide EncodeItem, Head, Utf8.Encode;
  }

  lemma {:induction false} TextSize(t: seq<Utf8.codepoint>)
    requires Utf8.Encode(t).Some?
    ensures |t| <= |Utf8.Encode(t).value| <= 4 * |t|
  {
    if t != [] {
      TextSize(t[1..]);
    }
  }

  lemma {:induction false} ElementsKeepLimit(vs: seq<Value>, depth: nat, out: Output)
    requires vs != [] && EncodeElements(vs, depth, out).Ok?
    ensures |EncodeElements(vs, depth, out).value.bytes| <= 16384
  {
    var next := EncodeElementsUnfold(vs, depth, out);
    ItemUnfold(vs[0], depth + 1, out);
    hide EncodeItem, EncodeBody;
    if |vs| > 1 {
      ElementsKeepLimit(vs[1..], depth, next);
    }
  }

  lemma {:induction false} EntriesKeepLimit(v: Value, ks: seq<nat>, depth: nat, out: Output)
    requires Listed(v, ks) && ks != [] && EncodeEntries(v, ks, depth, out).Ok?
    ensures |EncodeEntries(v, ks, depth, out).value.bytes| <= 16384
  {
    var next, after := EncodeEntriesUnfold(v, ks, depth, out);
    ItemUnfold(v.entries[ks[0]], depth + 1, next);
    hide EncodeItem, EncodeBody;
    if |ks| > 1 {
      EntriesKeepLimit(v, ks[1..], depth, after);
    }
  }

  /** A list is refused for itself or for one of its elements. */
  lemma ListUnwritable(v: Value, depth: nat, out: Output, e: Status)
    requires v.List?
    ensures EncodeItem(v, depth, out) == Err(e) <==>
              || Unwritable(v, |out.bytes|, out.items, depth, e)
              || (out.items < 2048 && depth < 8 && 0 < |v.elements| <= 2048
                  && EncodeElements(v.elements, depth, Output(out.bytes + Head(4, |v.elements|), out.items + 1)) == Err(e))
  {
    ItemUnfold(v, depth, out);
    hide EncodeItem;
    if v.elements == [] {
      assert |Head(4, 0)| == 1;
    } else if |v.elements| <= 2048 {
      var start := Output(out.bytes + Head(4, |v.elements|), out.items + 1);
      if EncodeElements(v.elements, depth, start).Ok? {
        ElementsKeepLimit(v.elements, depth, start);
      }
      hide EncodeElements, Head;
    }
  }

  /** A dict is refused for itself or for one of its entries. */
  lemma DictUnwritable(v: Value, depth: nat, out: Output, e: Status)
    requires v.Dict?
    ensures EncodeItem(v, depth, out) == Err(e) <==>
              || Unwritable(v, |out.bytes|, out.items, depth, e)
              || (out.items < 2048 && depth < 8 && 0 < |v.entries| <= 1024 && (forall k: nat :: k in v.entries ==> k < U64)
                  && EncodeEntries(v, SortedKeysOf(v), depth, Output(out.bytes + Head(5, |v.entries|), out.items + 1)) == Err(e))
  {
    ItemUnfold(v, depth, out);
    hide EncodeItem;
    var ks := SortedKeysOf(v);
    if |v.entries| == 0 {
      assert v.entries == map[];
      assert |Head(5, 0)| == 1;
    } else if |v.entries| <= 1024 {
      var start := Output(out.bytes + Head(5, |v.entries|), out.items + 1);
      if EncodeEntries(v, ks, depth, start).Ok? {
        EntriesKeepLimit(v, ks, depth, start);
      }
      hide EncodeEntries, Head;
    }
  }

  // ---------------------------------------------------------------- behind what was written

  lemma {:induction false} ElementsWritten(vs: seq<Value>, i: nat, depth: nat, out: Output)
    requires i <= |vs| && AllFit(vs[..i], depth + 1)
    requires i > 0 ==> Room(out, |SpellAll(vs[..i])|, CountAll(vs[..i]))
    ensures EncodeElements(vs, depth, out)
         == EncodeElements(vs[i..], depth, Extend(out, SpellAll(vs[..i]), CountAll(vs[..i])))
    decreases i
  {
    hide *;
    if i == 0 {
      assert vs[0..] == vs;
      NothingSpelt(vs[..0]);
      ExtendTwice(out, [], 0, [], 0);
    } else {
      var done := vs[..i];
      assert done[0] == vs[0] && done[1..] == vs[1..][..i - 1] && vs[1..][i - 1..] == vs[i..];
      SpellAllStep(done);
      FitsTail(done, depth + 1);
      RoomSplit(out, Spell(done[0]), Count(done[0]), SpellAll(done[1..]), CountAll(done[1..]));
      EncodeItemComplete(vs[0], depth + 1, out);
      EncodeElementsShape(vs, depth, out);
      ElementsWritten(vs[1..], i - 1, depth, Extend(out, Spell(vs[0]), Count(vs[0])));
      ExtendTwice(out, Spell(done[0]), Count(done[0]), SpellAll(done[1..]), CountAll(done[1..]));
    }
  }

  lemma RoomSplit(out: Output, a: seq<byte>, m: nat, b: seq<byte>, n: nat)
    requires Room(out, |a + b|, m + n)
    ensures Room(out, |a|, m) && Room(Extend(out, a, m), |b|, n)
  {
  }

  lemma {:induction false} EntriesWritten(v: Value, ks: seq<nat>, i: nat, depth: nat, out: Output)
    requires i <= |ks| && Listed(v, ks) && KeysFit(v, ks[..i], depth + 1)
    requires i > 0 ==> Room(out, |SpellEntries(v, ks[..i])|, CountEntries(v, ks[..i]))
    ensures Listed(v, ks[i..])
    ensures EncodeEntries(v, ks, depth, out)
         == EncodeEntries(v, ks[i..], depth, Extend(out, SpellEntries(v, ks[..i]), CountEntries(v, ks[..i])))
    decreases i
  {
    hide *;
    ListedParts(v, ks, i);
    if i == 0 {
      assert ks[0..] == ks;
      NoKeys(v, ks[..0]);
      ExtendTwice(out, [], 0, [], 0);
    } else {
      var done := ks[..i];
      assert done[0] == ks[0] && done[1..] == ks[1..][..i - 1] && ks[1..][i - 1..] == ks[i..];
      KeysTail(v, done, depth + 1);
      SpellEntriesStep(v, done);
      var x, s, rest := v.entries[ks[0]], Head(0, ks[0]), SpellEntries(v, done[1..]);
      CountPositive(x);
      RoomSplit(out, s, 1, Spell(x) + rest, Count(x) + CountEntries(v, done[1..]));
      var next := Extend(out, s, 1);
      RoomSplit(next, Spell(x), Count(x), rest, CountEntries(v, done[1..]));
      RoomParts(out, s, 1);
      EncodeItemComplete(x, depth + 1, next);
      EncodeEntriesShape(v, ks, depth, out);
      EntriesWritten(v, ks[1..], i - 1, depth, Extend(next, Spell(x), Count(x)));
      ExtendTwice(next, Spell(x), Count(x), rest, CountEntries(v, done[1..]));
      ExtendTwice(out, s, 1, Spell(x) + rest, Count(x) + CountEntries(v, done[1..]));
    }
  }

  lemma RoomParts(out: Output, a: seq<byte>, m: nat)
    requires Room(out, |a|, m)
    ensures out.items + m <= MAX_ITEMS && |out.bytes| + |a| <= MAX_BYTES
    ensures Extend(out, a, m).items <= MAX_ITEMS
  {
  }

  lemma NoKeys(v: Value, ks: seq<nat>)
    requires Listed(v, ks) && ks == []
    ensures SpellEntries(v, ks) == [] && CountEntries(v, ks) == 0
  {
  }

  lemma ListedParts(v: Value, ks: seq<nat>, i: nat)
    requires Listed(v, ks) && i <= |ks|
    ensures Listed(v, ks[..i]) && Listed(v, ks[i..]) && (ks != [] ==> Listed(v, ks[1..]) && ks[0] in v.entries)
    ensures v.Dict? && forall j :: 0 <= j < |ks| ==> ks[j] in v.entries
  {
  }

  lemma KeysTail(v: Value, ks: seq<nat>, depth: nat)
    requires KeysFit(v, ks, depth) && ks != []
    ensures Listed(v, ks) && ks[0] < U64 && ks[0] in v.entries && Fits(v.entries[ks[0]], depth) && KeysFit(v, ks[1..], depth)
  {
    hide Fits;
  }

  lemma ElementFails(vs: seq<Value>, depth: nat, out: Output, e: Status)
    requires vs != [] && EncodeItem(vs[0], depth + 1, out) == Err(e)
    ensures EncodeElements(vs, depth, out) == Err(e)
  {
    hide EncodeItem;
  }

  /** The next entry fails: for its key or for its value. */
  lemma EntryFails(v: Value, ks: seq<nat>, depth: nat, out: Output, e: Status)
    requires Listed(v, ks) && ks != [] && ks[0] < U64
    ensures var full := out.items >= 2048 || |out.bytes| + |Head(0, ks[0])| > 16384;
            && (full ==> EncodeEntries(v, ks, depth, out) == Err(Oversize))
            && (!full && EncodeItem(v.entries[ks[0]], depth + 1, Extend(out, Head(0, ks[0]), 1)) == Err(e) ==>
                  EncodeEntries(v, ks, depth, out) == Err(e))
  {
    hide EncodeItem, Head;
  }

  // ---------------------------------------------------------------- the classification is sound

  lemma Bounds()
    ensures MAX_ITEMS == 2048 && MAX_DEPTH == 8 && MAX_BYTES == 16384
  {
  }

  /** Where the writing stands in front of an element. */
  function ListOut(v: Value, i: nat, out: Output): Output
    requires v.List? && i <= |v.elements|
  {
    Output(out.bytes + Start(4, |v.elements|) + SpellAll(v.elements[..i]), out.items + 1 + CountAll(v.elements[..i]))
  }

  function DictOut(v: Value, i: nat, out: Output): Output
    requires v.Dict? && i <= |v.entries|
  {
    var ks := SortedKeysOf(v);
    Output(out.bytes + Start(5, |ks|) + SpellEntries(v, ks[..i]), out.items + 1 + CountEntries(v, ks[..i]))
  }

  lemma ElementUnwritable(v: Value, i: nat, depth: nat, out: Output, e: Status)
    requires v.List? && i < |v.elements| <= 2048 && depth < 8 && AllFit(v.elements[..i], depth + 1)
    requires var at := ListOut(v, i, out); at.items <= 2048 && (i > 0 ==> |at.bytes| <= 16384)
    requires EncodeItem(v.elements[i], depth + 1, ListOut(v, i, out)) == Err(e)
    ensures EncodeItem(v, depth, out) == Err(e)
  {
    hide EncodeItem, EncodeElements, Unwritable, AllFit, SpellAll, CountAll, Head, Room, Extend, ListOut;
    var vs := v.elements;
    var start := Output(out.bytes + Head(4, |vs|), out.items + 1);
    ListOutParts(v, i, out);
    ElementsWritten(vs, i, depth, start);
    ElementFails(vs[i..], depth, ListOut(v, i, out), e);
    ListUnwritable(v, depth, out, e);
  }

  lemma ListOutParts(v: Value, i: nat, out: Output)
    requires v.List? && i < |v.elements| <= 2048
    ensures var start, done := Output(out.bytes + Head(4, |v.elements|), out.items + 1), v.elements[..i];
            && ListOut(v, i, out) == Extend(start, SpellAll(done), CountAll(done))
            && (ListOut(v, i, out).items <= 2048 && |ListOut(v, i, out).bytes| <= 16384 ==>
                  Room(start, |SpellAll(done)|, CountAll(done)))
            && (ListOut(v, i, out).items <= 2048 ==> out.items < 2048)
    ensures v.elements[i..] != [] && v.elements[i..][0] == v.elements[i]
  {
    hide SpellAll, CountAll, Head;
  }

  lemma EntryUnwritable(v: Value, i: nat, depth: nat, out: Output, e: Status)
    requires v.Dict? && i < |v.entries| <= 1024 && depth < 8 && (forall k: nat :: k in v.entries ==> k < U64)
    requires KeysFit(v, SortedKeysOf(v)[..i], depth + 1)
    requires var at := DictOut(v, i, out); at.items <= 2048 && (i > 0 ==> |at.bytes| <= 16384)
    ensures var at, k := DictOut(v, i, out), SortedKeysOf(v)[i];
            var full := at.items == 2048 || |at.bytes| + |Start(0, k)| > 16384;
            && (full ==> EncodeItem(v, depth, out) == Err(Oversize))
            && (!full && EncodeItem(v.entries[k], depth + 1, Extend(at, Start(0, k), 1)) == Err(e) ==>
                  EncodeItem(v, depth, out) == Err(e))
  {
    var ks := SortedKeysOf(v);
    var start := Output(out.bytes + Head(5, |v.entries|), out.items + 1);
    DictUnwritable(v, depth, out, e);
    DictUnwritable(v, depth, out, Oversize);
    hide EncodeItem, EncodeEntries, Unwritable, Fits, SpellEntries, CountEntries, Head, SortedKeys, SortedKeysOf;
    assert out.bytes + Start(5, |ks|) + SpellEntries(v, ks[..i]) == start.bytes + SpellEntries(v, ks[..i]);
    EntriesWritten(v, ks, i, depth, start);
    assert ks[i..][0] == ks[i];
    EntryFails(v, ks[i..], depth, DictOut(v, i, out), e);
  }

  lemma {:induction false} UnwritableSound(path: seq<Step>, v: Value, out: Output, depth: nat, e: Status)
    requires UnwritableAt(path, v, |out.bytes|, out.items, depth, e)
    ensures EncodeItem(v, depth, out) == Err(e)
    decreases |path|
  {
    hide EncodeItem, Unwritable, AllFit, KeysFit, SpellAll, SpellEntries, CountAll, CountEntries, Head, SortedKeysOf;
    if path == [] {
      match v
      case List(_) => ListUnwritable(v, depth, out, e);
      case Dict(_) => DictUnwritable(v, depth, out, e);
      case _ => LeafUnwritable(v, depth, out, e);
    } else {
      match path[0]
      case Element(i) =>
        UnwritableSound(path[1..], v.elements[i], ListOut(v, i, out), depth + 1, e);
        ElementUnwritable(v, i, depth, out, e);
      case KeyAt(i) =>
        EntryUnwritable(v, i, depth, out, e);
      case ValueAt(i) =>
        var k := SortedKeysOf(v)[i];
        UnwritableSound(path[1..], v.entries[k], Extend(DictOut(v, i, out), Start(0, k), 1), depth + 1, e);
        EntryUnwritable(v, i, depth, out, e);
    }
  }

  // ---------------------------------------------------------------- and complete

  lemma {:induction false} FirstElement(vs: seq<Value>, depth: nat, out: Output, e: Status) returns (i: nat)
    requires EncodeElements(vs, depth, out) == Err(e)
    ensures i < |vs| && AllFit(vs[..i], depth + 1)
    ensures i > 0 ==> Room(out, |SpellAll(vs[..i])|, CountAll(vs[..i]))
    ensures EncodeItem(vs[i], depth + 1, Extend(out, SpellAll(vs[..i]), CountAll(vs[..i]))) == Err(e)
  {
    hide *;
    SomeElementFails(vs, depth, out, e);
    var first := EncodeItem(vs[0], depth + 1, out);
    if first.Err? {
      i := 0;
      NothingSpelt(vs[..0]);
      NothingFits(depth + 1);
      ExtendTwice(out, [], 0, [], 0);
    } else {
      EncodeItemSound(vs[0], depth + 1, out);
      EncodeElementsShape(vs, depth, out);
      var j := FirstElement(vs[1..], depth, first.value, e);
      i := j + 1;
      var done := vs[..i];
      assert done[0] == vs[0] && done[1..] == vs[1..][..j] && vs[1..][j] == vs[i] && done == [vs[0]] + vs[1..][..j];
      SpellAllStep(done);
      FitsCons(vs[0], vs[1..][..j], depth + 1);
      ExtendTwice(out, Spell(vs[0]), Count(vs[0]), SpellAll(done[1..]), CountAll(done[1..]));
      if j == 0 {
        NothingSpelt(done[1..]);
      }
      RoomJoin(out, Spell(vs[0]), Count(vs[0]), SpellAll(done[1..]), CountAll(done[1..]));
    }
  }

  lemma SomeElementFails(vs: seq<Value>, depth: nat, out: Output, e: Status)
    requires EncodeElements(vs, depth, out) == Err(e)
    ensures vs != [] && (EncodeItem(vs[0], depth + 1, out).Err? ==> EncodeItem(vs[0], depth + 1, out) == Err(e))
  {
    hide EncodeItem;
  }

  lemma RoomJoin(out: Output, a: seq<byte>, m: nat, b: seq<byte>, n: nat)
    requires Room(out, |a|, m) && (Room(Extend(out, a, m), |b|, n) || (b == [] && n == 0))
    ensures Room(out, |a + b|, m + n)
  {
  }

  /** Which entry cannot be written, and whether it is for its key. */
  lemma {:induction false} FirstEntry(v: Value, ks: seq<nat>, depth: nat, out: Output, e: Status) returns (i: nat, key: bool)
    requires Listed(v, ks) && (forall k: nat :: k in v.entries ==> k < U64)
    requires out.items <= 2048 && EncodeEntries(v, ks, depth, out) == Err(e)
    ensures i < |ks| && KeysFit(v, ks[..i], depth + 1) && Listed(v, ks[..i])
    ensures i > 0 ==> Room(out, |SpellEntries(v, ks[..i])|, CountEntries(v, ks[..i]))
    ensures var at := Extend(out, SpellEntries(v, ks[..i]), CountEntries(v, ks[..i]));
            && ks[i] < U64 && at.items <= 2048
            && var full := at.items == 2048 || |at.bytes| + |Head(0, ks[i])| > 16384;
               && (key <==> full) && (key ==> e == Oversize)
               && (!key ==> EncodeItem(v.entries[ks[i]], depth + 1, Extend(at, Head(0, ks[i]), 1)) == Err(e))
    decreases |ks|
  {
    hide *;
    Bounds();
    ListedParts(v, ks, 0);
    SomeEntryFails(v, ks, depth, out, e);
    NoKeys(v, ks[..0]);
    NothingKeyed(v, depth + 1);
    ExtendTwice(out, [], 0, [], 0);
    if out.items == 2048 || |out.bytes| + |Head(0, ks[0])| > 16384 {
      i, key := 0, true;
    } else {
      var next := Extend(out, Head(0, ks[0]), 1);
      var x := v.entries[ks[0]];
      var first := EncodeItem(x, depth + 1, next);
      if first.Err? {
        i, key := 0, false;
      } else {
        EncodeItemSound(x, depth + 1, next);
        RoomParts(next, Spell(x), Count(x));
        EncodeEntriesShape(v, ks, depth, out);
        var j;
        j, key := FirstEntry(v, ks[1..], depth, first.value, e);
        i := j + 1;
        var done := ks[..i];
        assert done[0] == ks[0] && done[1..] == ks[1..][..j] && ks[1..][j] == ks[i] && done == [ks[0]] + ks[1..][..j];
        KeysCons(v, ks[0], ks[1..][..j], depth + 1);
        SpellEntriesStep(v, done);
        var s, rest := Head(0, ks[0]), SpellEntries(v, done[1..]);
        ExtendTwice(next, Spell(x), Count(x), rest, CountEntries(v, done[1..]));
        ExtendTwice(out, s, 1, Spell(x) + rest, Count(x) + CountEntries(v, done[1..]));
        if j == 0 {
          NoKeys(v, done[1..]);
        }
        RoomJoin(next, Spell(x), Count(x), rest, CountEntries(v, done[1..]));
        RoomOfKey(out, s, Spell(x) + rest, Count(x) + CountEntries(v, done[1..]));
      }
    }
  }

  lemma SomeEntryFails(v: Value, ks: seq<nat>, depth: nat, out: Output, e: Status)
    requires Listed(v, ks) && (forall k: nat :: k in v.entries ==> k < U64) && EncodeEntries(v, ks, depth, out) == Err(e)
    ensures ks != [] && ks[0] in v.entries && ks[0] < U64
    ensures var full := out.items >= 2048 || |out.bytes| + |Head(0, ks[0])| > 16384;
            && (full ==> e == Oversize)
            && (!full ==> var first := EncodeItem(v.entries[ks[0]], depth + 1, Extend(out, Head(0, ks[0]), 1));
                          first.Err? ==> first == Err(e))
  {
    hide EncodeItem, Head;
  }

  lemma NothingKeyed(v: Value, depth: nat)
    requires v.Dict?
    ensures KeysFit(v, [], depth)
  {
  }

  lemma KeysCons(v: Value, k: nat, ks: seq<nat>, depth: nat)
    requires v.Dict? && k in v.entries && k < U64 && Fits(v.entries[k], depth) && KeysFit(v, ks, depth)
    ensures KeysFit(v, [k] + ks, depth) && Listed(v, [k] + ks)
  {
    hide Fits;
  }

  lemma RoomOfKey(out: Output, s: seq<byte>, rest: seq<byte>, n: nat)
    requires out.items < MAX_ITEMS && Room(Extend(out, s, 1), |rest|, n)
    ensures Room(out, |s + rest|, 1 + n)
  {
  }

  lemma ListUnwritableAt(v: Value, i: nat, path: seq<Step>, depth: nat, out: Output, e: Status)
    requires v.List? && i < |v.elements| <= 2048 && depth < 8 && out.items < 2048 && AllFit(v.elements[..i], depth + 1)
    requires var start := Output(out.bytes + Head(4, |v.elements|), out.items + 1);
             i > 0 ==> Room(start, |SpellAll(v.elements[..i])|, CountAll(v.elements[..i]))
    requires var start := Output(out.bytes + Head(4, |v.elements|), out.items + 1);
             var at := Extend(start, SpellAll(v.elements[..i]), CountAll(v.elements[..i]));
             UnwritableAt(path, v.elements[i], |at.bytes|, at.items, depth + 1, e)
    ensures UnwritableAt([Element(i)] + path, v, |out.bytes|, out.items, depth, e)
  {
    hide SpellAll, Head, AllFit, Unwritable;
    assert ([Element(i)] + path)[1..] == path;
    if i == 0 {
      NothingSpelt(v.elements[..0]);
    }
    hide CountAll;
  }

  lemma DictUnwritableAt(v: Value, i: nat, key: bool, path: seq<Step>, depth: nat, out: Output, e: Status)
    requires v.Dict? && i < |v.entries| <= 1024 && depth < 8 && out.items < 2048
    requires forall k: nat :: k in v.entries ==> k < U64
    requires KeysFit(v, SortedKeysOf(v)[..i], depth + 1)
    requires var start := Output(out.bytes + Head(5, |v.entries|), out.items + 1);
             var ks := SortedKeysOf(v);
             && (i > 0 ==> Room(start, |SpellEntries(v, ks[..i])|, CountEntries(v, ks[..i])))
             && var at := Extend(start, SpellEntries(v, ks[..i]), CountEntries(v, ks[..i]));
                var full := at.items == 2048 || |at.bytes| + |Head(0, ks[i])| > 16384;
                && at.items <= 2048
                && (key <==> full) && (key ==> e == Oversize)
                && (!key ==> UnwritableAt(path, v.entries[ks[i]], |at.bytes| + |Head(0, ks[i])|, at.items + 1, depth + 1, e))
    ensures UnwritableAt(if key then [KeyAt(i)] else [ValueAt(i)] + path, v, |out.bytes|, out.items, depth, e)
  {
    hide SpellEntries, CountEntries, Head, KeysFit, Unwritable, SortedKeysOf, SortedKeys;
    assert ([ValueAt(i)] + path)[1..] == path;
  }

  lemma {:induction false} UnwritableFound(v: Value, depth: nat, out: Output, e: Status) returns (path: seq<Step>)
    requires EncodeItem(v, depth, out) == Err(e)
    ensures UnwritableAt(path, v, |out.bytes|, out.items, depth, e)
    decreases v
  {
    hide EncodeItem, EncodeElements, EncodeEntries, Unwritable, AllFit, KeysFit, SpellAll, SpellEntries, CountAll, CountEntries,
      Head, SortedKeysOf, Room, Fits, Listed;
    path := [];
    match v
    case List(vs) =>
      ListUnwritable(v, depth, out, e);
      if !Unwritable(v, |out.bytes|, out.items, depth, e) {
        var start := Output(out.bytes + Head(4, |vs|), out.items + 1);
        var i := FirstElement(vs, depth, start, e);
        var inner := UnwritableFound(vs[i], depth + 1, Extend(start, SpellAll(vs[..i]), CountAll(vs[..i])), e);
        path := [Element(i)] + inner;
        ListUnwritableAt(v, i, inner, depth, out, e);
      }
    case Dict(m) =>
      DictUnwritable(v, depth, out, e);
      if !Unwritable(v, |out.bytes|, out.items, depth, e) {
        var start := Output(out.bytes + Head(5, |m|), out.items + 1);
        var ks := SortedKeysOf(v);
        KeysListed(v);
        var i, key := FirstEntry(v, ks, depth, start, e);
        var at := Extend(start, SpellEntries(v, ks[..i]), CountEntries(v, ks[..i]));
        var inner: seq<Step> := [];
        if !key {
          inner := UnwritableFound(v.entries[ks[i]], depth + 1, Extend(at, Head(0, ks[i]), 1), e);
        }
        path := if key then [KeyAt(i)] else [ValueAt(i)] + inner;
        DictUnwritableAt(v, i, key, inner, depth, out, e);
      }
    case _ => LeafUnwritable(v, depth, out, e);
  }

  lemma KeysListed(v: Value)
    requires v.Dict?
    ensures Listed(v, SortedKeysOf(v))
  {
    hide SortedKeysOf;
  }

  // ---------------------------------------------------------------- documents

  /** A value has no document, with this status, exactly when it is no dict; or when the first item that cannot be
      written has that fault. */
  lemma ValueRefused(v: Value, e: Status)
    ensures EncodeDocument(v) == Err(e) <==>
              if !v.Dict? && !v.Record? then e == Malformed else exists path :: UnwritableAt(path, v, 0, 0, 0, e)
  {
    var empty := Output([], 0);
    if EncodeDocument(v) == Err(e) && (v.Dict? || v.Record?) {
      hide UnwritableAt, EncodeItem;
      var path := UnwritableFound(v, 0, empty, e);
    }
    if v.Dict? || v.Record? {
      hide UnwritableAt, EncodeItem;
      if path :| UnwritableAt(path, v, 0, 0, 0, e) {
        UnwritableSound(path, v, empty, 0, e);
      }
    }
  }
}
