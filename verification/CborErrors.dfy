/** Which status a refused document gets. The place of the first offending item is told by the containers around it
 *  and by what they hold already, in terms of heads and spellings; the limits are written out. */
module CborErrors {
  import opened Prelude
  import Utf8
  import opened Cbor
  import opened CborProofs

  // ---------------------------------------------------------------- heads, byte by byte

  /** The head of an item, as section 3 of RFC 8949 lays it out. */
  lemma HeadBytes(major: nat, n: nat)
    requires major < 8 && n < 0x1_0000_0000_0000_0000
    ensures n < 24 ==> Head(major, n) == [major * 32 + n]
    ensures 24 <= n < 0x100 ==> Head(major, n) == [major * 32 + 24, n]
    ensures 0x100 <= n < 0x1_0000 ==> Head(major, n) == [major * 32 + 25, n / 0x100, n % 0x100]
    ensures 0x1_0000 <= n < 0x1_0000_0000 ==>
              Head(major, n) == [major * 32 + 26, n / 0x100_0000, n / 0x1_0000 % 0x100, n / 0x100 % 0x100, n % 0x100]
    ensures 0x1_0000_0000 <= n ==>
              var high := n / 0x1_0000_0000;
              Head(major, n) == [major * 32 + 27, high / 0x100_0000, high / 0x1_0000 % 0x100, high / 0x100 % 0x100, high % 0x100,
                                 n / 0x100_0000 % 0x100, n / 0x1_0000 % 0x100, n / 0x100 % 0x100, n % 0x100]
  {
    if n >= 0x1_0000_0000 {
      BigEndianHalves(n);
    } else if n >= 24 {
      BigEndianBytes(n);
    }
  }

  lemma BigEndianBytes(n: nat)
    requires n < 0x1_0000_0000
    ensures n < 0x100 ==> BigEndian(n, 1) == [n]
    ensures n < 0x1_0000 ==> BigEndian(n, 2) == [n / 0x100, n % 0x100]
    ensures BigEndian(n, 4) == [n / 0x100_0000, n / 0x1_0000 % 0x100, n / 0x100 % 0x100, n % 0x100]
  {
    var a := n / 256;
    var b := a / 256;
    var c := b / 256;
    assert b == n / 0x1_0000 && c == n / 0x100_0000 && c < 256;
    BigEndianTail(n, a, b, c);
    hide BigEndian;
  }

  lemma BigEndianTail(n: nat, a: nat, b: nat, c: nat)
    requires a == n / 256 && b == a / 256 && c == b / 256 && c < 256
    ensures n < 256 ==> BigEndian(n, 1) == [n]
    ensures n < 65536 ==> BigEndian(n, 2) == [a, n % 256]
    ensures BigEndian(n, 4) == [c, b % 256, a % 256, n % 256]
  {
    One(n);
    One(a);
    One(c);
    assert BigEndian(n, 2) == BigEndian(a, 1) + [n % 256];
    assert BigEndian(n, 4) == BigEndian(a, 3) + [n % 256];
    assert BigEndian(a, 3) == BigEndian(b, 2) + [a % 256];
    assert BigEndian(b, 2) == BigEndian(c, 1) + [b % 256];
  }

  lemma One(n: nat)
    ensures n < 256 ==> BigEndian(n, 1) == [n]
  {
    assert BigEndian(n, 1) == BigEndian(n / 256, 0) + [n % 256];
  }

  lemma BigEndianHalves(n: nat)
    requires n < 0x1_0000_0000_0000_0000
    ensures var high := n / 0x1_0000_0000;
            BigEndian(n, 8) == [high / 0x100_0000, high / 0x1_0000 % 0x100, high / 0x100 % 0x100, high % 0x100,
                                n / 0x100_0000 % 0x100, n / 0x1_0000 % 0x100, n / 0x100 % 0x100, n % 0x100]
  {
    var a := n / 256;
    var b := a / 256;
    var c := b / 256;
    var d := c / 256;
    Quarters(n, a, b, c, d);
    hide BigEndian;
    BigEndianBytes(d);
    BigEndianSteps(n, a, b, c, d);
  }

  lemma Quarters(n: nat, a: nat, b: nat, c: nat, d: nat)
    requires a == n / 256 && b == a / 256 && c == b / 256 && d == c / 256
    ensures b == n / 0x1_0000 && c == n / 0x100_0000 && d == n / 0x1_0000_0000
  {
  }

  lemma BigEndianSteps(n: nat, a: nat, b: nat, c: nat, d: nat)
    requires a == n / 256 && b == a / 256 && c == b / 256 && d == c / 256
    ensures BigEndian(n, 8) == BigEndian(d, 4) + [c % 256, b % 256, a % 256, n % 256]
  {
    assert BigEndian(n, 8) == BigEndian(a, 7) + [n % 256];
    assert BigEndian(a, 7) == BigEndian(b, 6) + [a % 256];
    assert BigEndian(b, 6) == BigEndian(c, 5) + [b % 256];
    assert BigEndian(c, 5) == BigEndian(d, 4) + [c % 256];
  }

  // ---------------------------------------------------------------- the first offending item

  /** A container on the way to an item: how many elements or entries it announces, those it holds already, and the
      key that was read for the next one. */
  datatype Layer =
    | InList(n: nat, done: seq<Value>)
    | InDict(n: nat, entries: seq<(nat, Value)>, key: Option<nat>)

  function Start(major: nat, n: nat): seq<byte>
    requires major < 8
  {
    if n < U64 then Head(major, n) else []
  }

  /** Keys and values as they stand one behind the other. */
  function Pairs(entries: seq<(nat, Value)>): seq<byte> {
    if entries == [] then [] else Start(0, entries[0].0) + Spell(entries[0].1) + Pairs(entries[1..])
  }

  function PairItems(entries: seq<(nat, Value)>): nat {
    if entries == [] then 0 else 1 + Count(entries[0].1) + PairItems(entries[1..])
  }

  function LayerBytes(l: Layer): seq<byte> {
    match l
    case InList(n, done) => Start(4, n) + SpellAll(done)
    case InDict(n, entries, key) => Start(5, n) + Pairs(entries) + (if key.Some? then Start(0, key.value) else [])
  }

  function LayerItems(l: Layer): nat {
    match l
    case InList(_, done) => 1 + CountAll(done)
    case InDict(_, entries, key) => 1 + PairItems(entries) + (if key.Some? then 1 else 0)
  }

  /** Each key is greater than the one before it. */
  ghost predicate Ascending(entries: seq<(nat, Value)>) {
    forall i, j :: 0 <= i < j < |entries| ==> entries[i].0 < entries[j].0
  }

  ghost predicate AllFit(vs: seq<Value>, depth: nat) {
    forall i :: 0 <= i < |vs| ==> Fits(vs[i], depth)
  }

  ghost predicate PairsFit(entries: seq<(nat, Value)>, depth: nat) {
    forall i :: 0 <= i < |entries| ==> entries[i].0 < U64 && Fits(entries[i].1, depth)
  }

  /** A container that was entered without complaint and is not complete yet. */
  ghost predicate Open(l: Layer, depth: nat) {
    && depth < 8
    && match l
       case InList(n, done) => |done| < n <= 2048 && AllFit(done, depth + 1)
       case InDict(n, entries, key) =>
         && |entries| < n <= 1024 && PairsFit(entries, depth + 1) && Ascending(entries)
         && (key.Some? ==> key.value < U64 && (entries != [] ==> entries[|entries| - 1].0 < key.value))
  }

  /** What can be wrong with the first byte of an item and its argument. */
  ghost predicate HeadOffends(rest: seq<byte>, e: Status) {
    if rest == [] then e == Incomplete
    else
      var major, additional := rest[0] / 32, rest[0] % 32;
      if major == 1 || major > 5 then e == UnsupportedMessage
      else if additional > 27 then e == Malformed
      else if (additional == 24 && |rest| < 2) || (additional == 25 && |rest| < 3)
              || (additional == 26 && |rest| < 5) || (additional == 27 && |rest| < 9) then e == Incomplete
      else e == Malformed && forall n: nat :: n < U64 ==> !(Head(major, n) <= rest)
  }

  /** What can be wrong with an item of this head, told from what follows the head. */
  ghost predicate ContentOffends(major: nat, n: nat, rest: seq<byte>, depth: nat, root: bool, key: bool, e: Status) {
    if (root && major != 5) || (key && major != 0) then e == Malformed
    else if major == 2 || major == 3 then
      if n > 16384 then e == Oversize
      else if n > |rest| then e == Incomplete
      else major == 3 && e == Malformed && forall t :: Utf8.Encode(t) != Some(rest[..n])
    else if major == 4 then e == Oversize && (depth >= 8 || n > 2048)
    else if major == 5 then e == Oversize && (depth >= 8 || n > 1024)
    else false
  }

  /** A sound head stands here, and what follows it does not suit it. */
  ghost predicate HeadedOffends(rest: seq<byte>, depth: nat, root: bool, key: bool, e: Status) {
    exists major: nat, n: nat ::
      && (major == 0 || 2 <= major <= 5) && n < U64 && Head(major, n) <= rest
      && ContentOffends(major, n, rest[|Head(major, n)|..], depth, root, key, e)
  }

  /** The item that begins here is itself at fault. */
  ghost predicate Offends(rest: seq<byte>, items: nat, depth: nat, root: bool, key: bool, e: Status) {
    if items >= 2048 then e == Oversize else HeadOffends(rest, e) || HeadedOffends(rest, depth, root, key, e)
  }

  /** The key that begins here is no key, or does not come after the last one. */
  ghost predicate KeyOffends(entries: seq<(nat, Value)>, rest: seq<byte>, items: nat, depth: nat, e: Status) {
    || Offends(rest, items, depth, false, true, e)
    || (entries != [] && items < 2048
        && exists k: nat :: k < U64 && Head(0, k) <= rest
             && (   (k == entries[|entries| - 1].0 && e == Duplicate)
                 || (k < entries[|entries| - 1].0 && e == Malformed)))
  }

  /** Inside these containers, outermost first, comes the first offending item. */
  ghost predicate RefusedIn(layers: seq<Layer>, data: seq<byte>, items: nat, depth: nat, root: bool, e: Status)
    decreases |layers|
  {
    if layers == [] then Offends(data, items, depth, root, false, e)
    else
      var l := layers[0];
      && (root ==> l.InDict?) && Open(l, depth)
      && items + LayerItems(l) <= 2048
      && LayerBytes(l) <= data
      && var rest, count := data[|LayerBytes(l)|..], items + LayerItems(l);
         if l.InDict? && l.key.None? then |layers| == 1 && KeyOffends(l.entries, rest, count, depth + 1, e)
         else RefusedIn(layers[1..], rest, count, depth + 1, false, e)
  }

  // ---------------------------------------------------------------- one item

  lemma HeadRefused(data: seq<byte>, offset: nat, e: Status)
    requires offset <= |data|
    ensures ReadHead(data, offset) == Err(e) <==> HeadOffends(data[offset..], e)
  {
    var rest := data[offset..];
    if ReadHead(data, offset).Ok? {
      ReadHeadSound(data, offset);
      var h := ReadHead(data, offset).value;
      HeadHere(data, offset, h);
    } else if offset < |data| {
      assert rest[0] == data[offset];
      hide Head, FromBigEndian;
      if n: nat :| n < U64 && Head(rest[0] / 32, n) <= rest {
        MajorBelow(rest[0]);
        if KnownMajor(rest[0] / 32) {
          ReadHeadComplete(data, offset, rest[0] / 32, n);
        }
      }
    }
  }

  lemma MajorBelow(b: byte)
    ensures b / 32 < 8
  {
  }

  lemma HeadHere(data: seq<byte>, offset: nat, h: HeadInfo)
    requires offset <= |data| && ReadHead(data, offset) == Ok(h)
    requires h.argument < U64 && KnownMajor(h.major) && Head(h.major, h.argument) == data[offset..h.next]
    ensures forall e :: !HeadOffends(data[offset..], e)
  {
    var rest := data[offset..];
    assert rest[0] == data[offset];
    assert Head(h.major, h.argument) <= rest by {
      assert data[offset..h.next] == rest[..h.next - offset];
    }
    hide Head, FromBigEndian;
  }

  lemma ItemSplit(data: seq<byte>, offset: nat, items: nat, depth: nat, root: bool, key: bool)
    requires offset <= |data|
    ensures DecodeItem(data, offset, items, depth, root, key)
         == if items >= 2048 then Err(Oversize)
            else if ReadHead(data, offset).Err? then Err(ReadHead(data, offset).error)
            else if (root && ReadHead(data, offset).value.major != 5) || (key && ReadHead(data, offset).value.major != 0)
            then Err(Malformed)
            else DecodeContent(data, ReadHead(data, offset).value, items + 1, depth)
  {
    hide ReadHead, DecodeContent;
  }

  /** The container that this head opens holds the offending item. */
  ghost predicate OffendsInside(data: seq<byte>, h: HeadInfo, items: nat, depth: nat, e: Status)
    requires h.next <= |data|
  {
    && depth < 8
    && if h.major == 4 then h.argument <= 2048 && DecodeElements(data, h.next, items, depth, h.argument) == Err(e)
       else h.major == 5 && h.argument <= 1024 && DecodeEntries(data, h.next, items, depth, h.argument, None) == Err(e)
  }

  lemma ContentSplit(data: seq<byte>, h: HeadInfo, items: nat, depth: nat, e: Status)
    requires h.next <= |data| && KnownMajor(h.major)
    ensures DecodeContent(data, h, items, depth) == Err(e) <==>
              || ContentOffends(h.major, h.argument, data[h.next..], depth, false, false, e)
              || OffendsInside(data, h, items, depth, e)
  {
    hide DecodeElements, DecodeEntries;
    var rest := data[h.next..];
    if h.major == 3 && h.argument <= |rest| {
      var raw := rest[..h.argument];
      assert raw == data[h.next..h.next + h.argument];
      if Utf8.Decode(raw).Some? {
        Utf8.CodecBijection(raw, Utf8.Decode(raw).value);
      }
      forall t | Utf8.Encode(t) == Some(raw) ensures Utf8.Decode(raw).Some? {
        Utf8.CodecBijection(raw, t);
      }
      hide Utf8.Encode, Utf8.Decode;
    }
  }

  /** An item is refused for itself or for something inside it. */
  lemma ItemRefused(data: seq<byte>, offset: nat, items: nat, depth: nat, root: bool, key: bool, e: Status)
    requires offset <= |data|
    ensures DecodeItem(data, offset, items, depth, root, key) == Err(e) <==>
              || Offends(data[offset..], items, depth, root, key, e)
              || (&& items < 2048 && ReadHead(data, offset).Ok?
                  && var h := ReadHead(data, offset).value;
                     && (root ==> h.major == 5) && (key ==> h.major == 0)
                     && OffendsInside(data, h, items + 1, depth, e))
  {
    hide *;
    ItemSplit(data, offset, items, depth, root, key);
    HeadRefused(data, offset, e);
    OffendsParts(data[offset..], items, depth, root, key, e);
    if items < 2048 && ReadHead(data, offset).Ok? {
      var h := ReadHead(data, offset).value;
      ReadHeadSound(data, offset);
      MajorKnown(h.major);
      HeadInside(data, offset);
      ContentSplit(data, h, items + 1, depth, e);
      OneHead(data, offset, h, depth, root, key, e);
      RightPlace(h.major, h.argument, data[h.next..], depth, root, key, e);
    } else {
      NoHead(data, offset, depth, root, key, e);
    }
  }

  lemma OffendsParts(rest: seq<byte>, items: nat, depth: nat, root: bool, key: bool, e: Status)
    ensures Offends(rest, items, depth, root, key, e) <==>
              if items >= 2048 then e == Oversize else HeadOffends(rest, e) || HeadedOffends(rest, depth, root, key, e)
  {
    hide HeadOffends, HeadedOffends;
  }

  lemma MajorKnown(major: nat)
    ensures KnownMajor(major) ==> major == 0 || 2 <= major <= 5
  {
  }

  lemma HeadInside(data: seq<byte>, offset: nat)
    requires offset <= |data|
    ensures ReadHead(data, offset).Ok? ==> ReadHead(data, offset).value.next <= |data|
  {
    hide ReadHead;
  }

  lemma RightPlace(major: nat, n: nat, rest: seq<byte>, depth: nat, root: bool, key: bool, e: Status)
    ensures ContentOffends(major, n, rest, depth, root, key, e) <==>
              if (root && major != 5) || (key && major != 0) then e == Malformed
              else ContentOffends(major, n, rest, depth, false, false, e)
  {
  }

  lemma NoHead(data: seq<byte>, offset: nat, depth: nat, root: bool, key: bool, e: Status)
    requires offset <= |data|
    ensures ReadHead(data, offset).Err? ==> !HeadedOffends(data[offset..], depth, root, key, e)
  {
    hide ReadHead, ContentOffends, Head;
    forall major: nat, n: nat | (major == 0 || 2 <= major <= 5) && n < U64 && Head(major, n) <= data[offset..]
      ensures ReadHead(data, offset).Ok?
    {
      ReadHeadComplete(data, offset, major, n);
    }
  }

  /** The head that is read is the only one that stands there. */
  lemma OneHead(data: seq<byte>, offset: nat, h: HeadInfo, depth: nat, root: bool, key: bool, e: Status)
    requires offset <= |data| && ReadHead(data, offset) == Ok(h)
    requires KnownMajor(h.major) && h.argument < U64 && Head(h.major, h.argument) == data[offset..h.next]
    ensures !HeadOffends(data[offset..], e)
    ensures HeadedOffends(data[offset..], depth, root, key, e) <==>
              ContentOffends(h.major, h.argument, data[h.next..], depth, root, key, e)
  {
    var rest := data[offset..];
    HeadHere(data, offset, h);
    hide ReadHead, ContentOffends, HeadOffends, Head;
    assert data[offset..h.next] == rest[..h.next - offset];
    assert rest[|Head(h.major, h.argument)|..] == data[h.next..];
    if major: nat, n: nat :|
      && (major == 0 || 2 <= major <= 5) && n < U64 && Head(major, n) <= rest
      && ContentOffends(major, n, rest[|Head(major, n)|..], depth, root, key, e)
    {
      ReadHeadComplete(data, offset, major, n);
    }
    if ContentOffends(h.major, h.argument, data[h.next..], depth, root, key, e) {
      assert Head(h.major, h.argument) <= rest;
    }
  }

  // ---------------------------------------------------------------- behind what was accepted

  lemma {:induction false} ElementsSkipped(done: seq<Value>, data: seq<byte>, offset: nat, items: nat, depth: nat, n: nat)
    requires |done| <= n && AllFit(done, depth + 1) && items + CountAll(done) <= MAX_ITEMS
    requires offset <= |data| && SpellAll(done) <= data[offset..]
    ensures offset + |SpellAll(done)| <= |data|
    ensures forall e :: DecodeElements(data, offset + |SpellAll(done)|, items + CountAll(done), depth, n - |done|) == Err(e) ==>
              DecodeElements(data, offset, items, depth, n) == Err(e)
    decreases |done|
  {
    hide *;
    if done == [] {
      NothingSpelt(done);
    } else {
      var first, rest := Spell(done[0]), SpellAll(done[1..]);
      SpellAllStep(done);
      FitsTail(done, depth + 1);
      SplitAt(first, rest, data, offset);
      DecodeItemComplete(done[0], data, offset, items, depth + 1, false, false);
      ElementsSkipped(done[1..], data, offset + |first|, items + Count(done[0]), depth, n - 1);
      ElementsStep(data, offset, items, depth, n, Parsed(done[0], offset + |first|, items + Count(done[0])));
    }
  }

  lemma NothingSpelt(done: seq<Value>)
    requires done == []
    ensures SpellAll(done) == [] && CountAll(done) == 0
  {
  }

  lemma FitsTail(vs: seq<Value>, depth: nat)
    requires AllFit(vs, depth) && vs != []
    ensures Fits(vs[0], depth) && AllFit(vs[1..], depth)
  {
    hide Fits;
  }

  lemma ElementsStep(data: seq<byte>, offset: nat, items: nat, depth: nat, n: nat, first: Parsed<Value>)
    requires n > 0 && offset <= |data| && first.offset <= |data|
    requires DecodeItem(data, offset, items, depth + 1, false, false) == Ok(first)
    ensures forall e :: DecodeElements(data, first.offset, first.items, depth, n - 1) == Err(e) <==>
              DecodeElements(data, offset, items, depth, n) == Err(e)
  {
    hide DecodeItem;
  }

  lemma ElementsHead(data: seq<byte>, offset: nat, items: nat, depth: nat, n: nat, e: Status)
    requires n > 0 && offset <= |data|
    requires DecodeItem(data, offset, items, depth + 1, false, false) == Err(e)
    ensures DecodeElements(data, offset, items, depth, n) == Err(e)
  {
    hide DecodeItem;
  }

  function Last(entries: seq<(nat, Value)>, previous: Option<nat>): Option<nat> {
    if entries == [] then previous else Some(entries[|entries| - 1].0)
  }

  lemma {:induction false} EntriesSkipped(entries: seq<(nat, Value)>, data: seq<byte>, offset: nat, items: nat, depth: nat,
                                          n: nat, previous: Option<nat>)
    requires |entries| <= n && PairsFit(entries, depth + 1) && Ascending(entries)
    requires previous.Some? && entries != [] ==> previous.value < entries[0].0
    requires items + PairItems(entries) <= MAX_ITEMS && offset <= |data| && Pairs(entries) <= data[offset..]
    ensures offset + |Pairs(entries)| <= |data|
    ensures forall e :: DecodeEntries(data, offset + |Pairs(entries)|, items + PairItems(entries), depth, n - |entries|,
                                      Last(entries, previous)) == Err(e) ==>
              DecodeEntries(data, offset, items, depth, n, previous) == Err(e)
    decreases |entries|
  {
    hide *;
    if entries == [] {
      NoPairs(entries, previous);
    } else {
      var k, x, rest := entries[0].0, entries[0].1, entries[1..];
      PairsStep(entries, previous, depth + 1);
      CountPositive(x);
      var s, t, u := Head(0, k), Spell(x), Pairs(rest);
      SplitAt(s, t + u, data, offset);
      DecodeKeyComplete(k, data, offset, items, depth + 1);
      var middle := offset + |s|;
      SplitAt(t, u, data, middle);
      DecodeItemComplete(x, data, middle, items + 1, depth + 1, false, false);
      var next, count := middle + |t|, items + 1 + Count(x);
      EntriesSkipped(rest, data, next, count, depth, n - 1, Some(k));
      EntriesStep(data, offset, items, depth, n, previous, Parsed(Int(k), middle, items + 1), Parsed(x, next, count));
    }
  }

  lemma NoPairs(entries: seq<(nat, Value)>, previous: Option<nat>)
    requires entries == []
    ensures Pairs(entries) == [] && PairItems(entries) == 0 && Last(entries, previous) == previous
  {
  }

  lemma PairsStep(entries: seq<(nat, Value)>, previous: Option<nat>, depth: nat)
    requires entries != [] && PairsFit(entries, depth) && Ascending(entries)
    ensures var k, x, rest := entries[0].0, entries[0].1, entries[1..];
            && k < U64 && Fits(x, depth) && PairsFit(rest, depth) && Ascending(rest)
            && (rest != [] ==> k < rest[0].0)
            && Pairs(entries) == Head(0, k) + (Spell(x) + Pairs(rest))
            && PairItems(entries) == 1 + Count(x) + PairItems(rest)
            && Last(entries, previous) == Last(rest, Some(k))
  {
    hide *;
    PairsTail(entries, depth);
    PairsSplit(entries);
    LastTail(entries, previous);
  }

  lemma PairsTail(entries: seq<(nat, Value)>, depth: nat)
    requires entries != [] && PairsFit(entries, depth) && Ascending(entries)
    ensures entries[0].0 < U64 && Fits(entries[0].1, depth) && PairsFit(entries[1..], depth) && Ascending(entries[1..])
    ensures entries[1..] != [] ==> entries[0].0 < entries[1..][0].0
  {
    hide Fits;
    assert forall i :: 0 <= i < |entries[1..]| ==> entries[1..][i] == entries[i + 1];
  }

  lemma PairsSplit(entries: seq<(nat, Value)>)
    requires entries != [] && entries[0].0 < U64
    ensures Pairs(entries) == Head(0, entries[0].0) + (Spell(entries[0].1) + Pairs(entries[1..]))
    ensures PairItems(entries) == 1 + Count(entries[0].1) + PairItems(entries[1..])
  {
    hide Spell, Count, Head;
    Regrouped(Head(0, entries[0].0), Spell(entries[0].1), Pairs(entries[1..]));
  }

  lemma Regrouped(a: seq<byte>, b: seq<byte>, c: seq<byte>)
    ensures a + b + c == a + (b + c)
  {
  }

  lemma LastTail(entries: seq<(nat, Value)>, previous: Option<nat>)
    requires entries != []
    ensures Last(entries, previous) == Last(entries[1..], Some(entries[0].0))
  {
  }

  lemma EntriesStep(data: seq<byte>, offset: nat, items: nat, depth: nat, n: nat, previous: Option<nat>,
                    current: Parsed<Value>, x: Parsed<Value>)
    requires n > 0 && offset <= |data| && current.offset <= |data| && x.offset <= |data|
    requires DecodeItem(data, offset, items, depth + 1, false, true) == Ok(current)
    requires current.value.Int? && current.value.n >= 0
    requires previous.Some? ==> previous.value < current.value.n
    requires DecodeItem(data, current.offset, current.items, depth + 1, false, false) == Ok(x)
    ensures forall e :: DecodeEntries(data, x.offset, x.items, depth, n - 1, Some(current.value.n)) == Err(e) <==>
              DecodeEntries(data, offset, items, depth, n, previous) == Err(e)
  {
    hide DecodeItem;
  }

  /** The next entry is refused: for its key, for the order of its key, or for its value. */
  lemma EntriesHead(data: seq<byte>, offset: nat, items: nat, depth: nat, n: nat, previous: Option<nat>, e: Status)
    requires n > 0 && offset <= |data|
    ensures var key := DecodeItem(data, offset, items, depth + 1, false, true);
            && (key == Err(e) ==> DecodeEntries(data, offset, items, depth, n, previous) == Err(e))
            && (key.Ok? ==>
                  var k := key.value.value.n;
                  && (previous.Some? && k == previous.value ==>
                        DecodeEntries(data, offset, items, depth, n, previous) == Err(Duplicate))
                  && (previous.Some? && k < previous.value ==>
                        DecodeEntries(data, offset, items, depth, n, previous) == Err(Malformed))
                  && ((previous.Some? ==> previous.value < k)
                      && DecodeItem(data, key.value.offset, key.value.items, depth + 1, false, false) == Err(e) ==>
                        DecodeEntries(data, offset, items, depth, n, previous) == Err(e)))
  {
    hide DecodeItem;
  }

  // ---------------------------------------------------------------- the classification is sound

  lemma ListParts(l: Layer, data: seq<byte>, offset: nat)
    requires l.InList? && l.n < U64 && offset <= |data| && LayerBytes(l) <= data[offset..]
    ensures var middle := offset + |Head(4, l.n)|;
            && Head(4, l.n) <= data[offset..] && middle <= |data| && SpellAll(l.done) <= data[middle..]
            && middle + |SpellAll(l.done)| == offset + |LayerBytes(l)| <= |data|
            && data[offset..][|LayerBytes(l)|..] == data[middle + |SpellAll(l.done)|..]
  {
    hide Head, SpellAll;
    SplitAt(Head(4, l.n), SpellAll(l.done), data, offset);
  }

  lemma DictParts(l: Layer, data: seq<byte>, offset: nat)
    requires l.InDict? && l.n < U64 && (l.key.Some? ==> l.key.value < U64)
    requires offset <= |data| && LayerBytes(l) <= data[offset..]
    ensures var middle := offset + |Head(5, l.n)|;
            && Head(5, l.n) <= data[offset..] && middle <= |data| && Pairs(l.entries) <= data[middle..]
            && var next := middle + |Pairs(l.entries)|;
               && next <= |data| && offset + |LayerBytes(l)| <= |data|
               && data[offset..][|LayerBytes(l)|..] == data[offset + |LayerBytes(l)|..]
               && (l.key.None? ==> next == offset + |LayerBytes(l)|)
               && (l.key.Some? ==> Head(0, l.key.value) <= data[next..]
                                   && next + |Head(0, l.key.value)| == offset + |LayerBytes(l)|)
  {
    hide Head, Pairs;
    var key := if l.key.Some? then Head(0, l.key.value) else [];
    assert LayerBytes(l) == Head(5, l.n) + (Pairs(l.entries) + key);
    SplitAt(Head(5, l.n), Pairs(l.entries) + key, data, offset);
    SplitAt(Pairs(l.entries), key, data, offset + |Head(5, l.n)|);
  }

  /** The parts of `RefusedIn` for a first layer. */
  lemma RefusedUnfold(layers: seq<Layer>, data: seq<byte>, items: nat, depth: nat, root: bool, e: Status)
    requires layers != []
    ensures RefusedIn(layers, data, items, depth, root, e) <==>
              var l := layers[0];
              && (root ==> l.InDict?) && Open(l, depth)
              && items + LayerItems(l) <= 2048
              && LayerBytes(l) <= data
              && var rest, count := data[|LayerBytes(l)|..], items + LayerItems(l);
                 if l.InDict? && l.key.None? then |layers| == 1 && KeyOffends(l.entries, rest, count, depth + 1, e)
                 else RefusedIn(layers[1..], rest, count, depth + 1, false, e)
  {
    hide Open, LayerBytes, LayerItems, KeyOffends, Offends;
  }

  lemma RefusedHere(data: seq<byte>, items: nat, depth: nat, root: bool, e: Status)
    ensures RefusedIn([], data, items, depth, root, e) <==> Offends(data, items, depth, root, false, e)
  {
    hide Offends;
  }

  lemma OpenParts(l: Layer, depth: nat)
    requires Open(l, depth)
    ensures depth < 8 && l.n < U64
    ensures l.InList? ==> |l.done| < l.n <= 2048 && AllFit(l.done, depth + 1) && LayerItems(l) == 1 + CountAll(l.done)
    ensures l.InDict? ==>
              && |l.entries| < l.n <= 1024 && PairsFit(l.entries, depth + 1) && Ascending(l.entries)
              && LayerItems(l) == 1 + PairItems(l.entries) + (if l.key.Some? then 1 else 0)
              && (l.key.Some? ==>
                    l.key.value < U64 && (Last(l.entries, None).Some? ==> Last(l.entries, None).value < l.key.value))
  {
    hide AllFit, PairsFit, Ascending;
  }

  lemma InsideFold(data: seq<byte>, h: HeadInfo, items: nat, depth: nat, e: Status)
    requires h.next <= |data| && depth < 8 && (h.major == 4 || h.major == 5)
    requires h.major == 4 ==> h.argument <= 2048 && DecodeElements(data, h.next, items, depth, h.argument) == Err(e)
    requires h.major == 5 ==> h.argument <= 1024 && DecodeEntries(data, h.next, items, depth, h.argument, None) == Err(e)
    ensures OffendsInside(data, h, items, depth, e)
  {
    hide DecodeElements, DecodeEntries;
  }

  lemma {:induction false} RefusedSound(layers: seq<Layer>, data: seq<byte>, offset: nat, items: nat, depth: nat,
                                        root: bool, e: Status)
    requires offset <= |data| && RefusedIn(layers, data[offset..], items, depth, root, e)
    ensures DecodeItem(data, offset, items, depth, root, false) == Err(e)
    decreases |layers|
  {
    hide *;
    if layers == [] {
      ItemRefused(data, offset, items, depth, root, false, e);
      RefusedHere(data[offset..], items, depth, root, e);
    } else {
      var l := layers[0];
      RefusedUnfold(layers, data[offset..], items, depth, root, e);
      OpenParts(l, depth);
      var place, count := offset + |LayerBytes(l)|, items + LayerItems(l);
      if l.InList? {
        ListParts(l, data, offset);
        RefusedSound(layers[1..], data, place, count, depth + 1, false, e);
        ElementInside(l, data, offset, items, depth, root, e);
      } else {
        DictParts(l, data, offset);
        if l.key.Some? {
          RefusedSound(layers[1..], data, place, count, depth + 1, false, e);
        }
        EntryInside(l, data, offset, items, depth, root, e);
      }
    }
  }

  lemma ElementInside(l: Layer, data: seq<byte>, offset: nat, items: nat, depth: nat, root: bool, e: Status)
    requires l.InList? && Open(l, depth) && !root && offset <= |data| && LayerBytes(l) <= data[offset..]
    requires items + LayerItems(l) <= 2048 && offset + |LayerBytes(l)| <= |data|
    requires DecodeItem(data, offset + |LayerBytes(l)|, items + LayerItems(l), depth + 1, false, false) == Err(e)
    ensures DecodeItem(data, offset, items, depth, root, false) == Err(e)
  {
    hide *;
    Limits();
    OpenParts(l, depth);
    ListParts(l, data, offset);
    ReadHeadComplete(data, offset, 4, l.n);
    var middle := offset + |Head(4, l.n)|;
    ElementsHead(data, offset + |LayerBytes(l)|, items + LayerItems(l), depth, l.n - |l.done|, e);
    ElementsSkipped(l.done, data, middle, items + 1, depth, l.n);
    InsideFold(data, HeadInfo(4, l.n, middle), items + 1, depth, e);
    ItemRefused(data, offset, items, depth, root, false, e);
  }

  lemma EntryInside(l: Layer, data: seq<byte>, offset: nat, items: nat, depth: nat, root: bool, e: Status)
    requires l.InDict? && Open(l, depth) && offset <= |data| && LayerBytes(l) <= data[offset..]
    requires items + LayerItems(l) <= 2048 && offset + |LayerBytes(l)| <= |data|
    requires l.key.None? ==> KeyOffends(l.entries, data[offset + |LayerBytes(l)|..], items + LayerItems(l), depth + 1, e)
    requires l.key.Some? ==>
               DecodeItem(data, offset + |LayerBytes(l)|, items + LayerItems(l), depth + 1, false, false) == Err(e)
    ensures DecodeItem(data, offset, items, depth, root, false) == Err(e)
  {
    hide *;
    Limits();
    OpenParts(l, depth);
    DictParts(l, data, offset);
    ReadHeadComplete(data, offset, 5, l.n);
    var middle := offset + |Head(5, l.n)|;
    var next, count := middle + |Pairs(l.entries)|, items + 1 + PairItems(l.entries);
    if l.key.None? {
      KeyRefused(l.entries, data, next, count, depth, l.n - |l.entries|, e);
    } else {
      DecodeKeyComplete(l.key.value, data, next, count, depth + 1);
      EntriesHead(data, next, count, depth, l.n - |l.entries|, Last(l.entries, None), e);
    }
    EntriesSkipped(l.entries, data, middle, items + 1, depth, l.n, None);
    InsideFold(data, HeadInfo(5, l.n, middle), items + 1, depth, e);
    ItemRefused(data, offset, items, depth, root, false, e);
  }

  lemma Limits()
    ensures MAX_ITEMS == 2048 && MAX_DEPTH == 8 && MAX_BYTES == 16384 && KnownMajor(4) && KnownMajor(5)
  {
  }

  lemma KeyRefused(entries: seq<(nat, Value)>, data: seq<byte>, offset: nat, items: nat, depth: nat, n: nat, e: Status)
    requires offset <= |data| && n > 0 && KeyOffends(entries, data[offset..], items, depth + 1, e)
    ensures DecodeEntries(data, offset, items, depth, n, Last(entries, None)) == Err(e)
  {
    ItemRefused(data, offset, items, depth + 1, false, true, e);
    EntriesHead(data, offset, items, depth, n, Last(entries, None), e);
    hide DecodeItem, DecodeEntries, Offends, OffendsInside, ReadHead, Head;
    if !Offends(data[offset..], items, depth + 1, false, true, e) {
      var k: nat :| k < U64 && Head(0, k) <= data[offset..]
             && (   (k == entries[|entries| - 1].0 && e == Duplicate)
                 || (k < entries[|entries| - 1].0 && e == Malformed));
      DecodeKeyComplete(k, data, offset, items, depth + 1);
    }
  }

  // ---------------------------------------------------------------- and complete

  /** A refused item has its first offending item somewhere. */
  lemma {:induction false} RefusalFound(data: seq<byte>, offset: nat, items: nat, depth: nat, root: bool, e: Status)
    returns (layers: seq<Layer>)
    requires offset <= |data| && DecodeItem(data, offset, items, depth, root, false) == Err(e)
    ensures RefusedIn(layers, data[offset..], items, depth, root, e)
    decreases |data| - offset, 0
  {
    hide *;
    Limits();
    ItemRefused(data, offset, items, depth, root, false, e);
    if Offends(data[offset..], items, depth, root, false, e) {
      layers := [];
      RefusedHere(data[offset..], items, depth, root, e);
    } else {
      var h := ReadHead(data, offset).value;
      ReadHeadSound(data, offset);
      InsideUnfold(data, h, items + 1, depth, e);
      if h.major == 4 {
        layers := ListRefusal(data, h, items + 1, depth, e);
        assert data[offset..] == data[offset..h.next] + data[h.next..];
        LayerInFront(layers, data[offset..], data[h.next..], h, items, depth, root, e);
      } else {
        layers := DictRefusal(data, h, items + 1, depth, e);
        assert data[offset..] == data[offset..h.next] + data[h.next..];
        LayerInFront(layers, data[offset..], data[h.next..], h, items, depth, root, e);
      }
    }
  }

  lemma InsideUnfold(data: seq<byte>, h: HeadInfo, items: nat, depth: nat, e: Status)
    requires h.next <= |data| && OffendsInside(data, h, items, depth, e)
    ensures depth < 8 && (h.major == 4 || h.major == 5)
    ensures h.major == 4 ==> h.argument <= 2048 && DecodeElements(data, h.next, items, depth, h.argument) == Err(e)
    ensures h.major == 5 ==> h.argument <= 1024 && DecodeEntries(data, h.next, items, depth, h.argument, None) == Err(e)
  {
    hide DecodeElements, DecodeEntries;
  }

  /** What `RefusedIn` asks of a first layer, when its head has been read already and counted. */
  ghost predicate RefusedBehind(layers: seq<Layer>, rest: seq<byte>, h: HeadInfo, items: nat, depth: nat, e: Status) {
    && layers != []
    && var l := layers[0];
       && l.n == h.argument && l.InList? == (h.major == 4) && Open(l, depth)
       && items - 1 + LayerItems(l) <= 2048 && items > 0
       && var written := if l.InList? then SpellAll(l.done)
                         else Pairs(l.entries) + (if l.key.Some? then Start(0, l.key.value) else []);
          && written <= rest
          && var more, count := rest[|written|..], items - 1 + LayerItems(l);
             if l.InDict? && l.key.None? then |layers| == 1 && KeyOffends(l.entries, more, count, depth + 1, e)
             else RefusedIn(layers[1..], more, count, depth + 1, false, e)
  }

  lemma LayerInFront(layers: seq<Layer>, whole: seq<byte>, rest: seq<byte>, h: HeadInfo, items: nat, depth: nat,
                     root: bool, e: Status)
    requires RefusedBehind(layers, rest, h, items + 1, depth, e)
    requires (h.major == 4 || h.major == 5) && h.argument < U64 && (root ==> h.major == 5)
    requires whole == Head(h.major, h.argument) + rest
    ensures RefusedIn(layers, whole, items, depth, root, e)
  {
    hide Open, KeyOffends, Offends, SpellAll, Pairs, CountAll, PairItems, Head, RefusedIn, LayerBytes, LayerItems, Start;
    var l := layers[0];
    var written := if l.InList? then SpellAll(l.done)
                   else Pairs(l.entries) + (if l.key.Some? then Start(0, l.key.value) else []);
    LayerHeaded(l, h.major, written);
    InFront(Head(h.major, h.argument), written, rest);
    RefusedUnfold(layers, whole, items, depth, root, e);
  }

  lemma LayerHeaded(l: Layer, major: nat, written: seq<byte>)
    requires major == (if l.InList? then 4 else 5) && l.n < U64
    requires written == if l.InList? then SpellAll(l.done)
                        else Pairs(l.entries) + (if l.key.Some? then Start(0, l.key.value) else [])
    ensures LayerBytes(l) == Head(major, l.n) + written
  {
    hide SpellAll, Pairs, Head;
    if l.InDict? {
      Regrouped(Head(5, l.n), Pairs(l.entries), if l.key.Some? then Start(0, l.key.value) else []);
    }
  }

  lemma InFront(head: seq<byte>, written: seq<byte>, rest: seq<byte>)
    requires written <= rest
    ensures head + written <= head + rest
    ensures (head + rest)[|head + written|..] == rest[|written|..]
  {
  }

  lemma {:induction false} ListRefusal(data: seq<byte>, h: HeadInfo, items: nat, depth: nat, e: Status)
    returns (layers: seq<Layer>)
    requires h.next <= |data| && h.major == 4 && h.argument <= 2048 && depth < 8 && 0 < items <= 2048
    requires DecodeElements(data, h.next, items, depth, h.argument) == Err(e)
    ensures RefusedBehind(layers, data[h.next..], h, items, depth, e)
    decreases |data| - h.next, 2
  {
    hide *;
    var done, inner := ElementRefusal(data, h.next, items, depth, h.argument, e);
    layers := [InList(h.argument, done)] + inner;
    assert layers[1..] == inner;
    ListBehind(layers, data, h, items, depth, e);
  }

  lemma ListBehind(layers: seq<Layer>, data: seq<byte>, h: HeadInfo, items: nat, depth: nat, e: Status)
    requires layers != [] && layers[0].InList? && layers[0].n == h.argument && h.major == 4
    requires h.next <= |data| && h.argument <= 2048 && depth < 8 && 0 < items
    requires var done := layers[0].done;
             && |done| < h.argument && AllFit(done, depth + 1) && items + CountAll(done) <= 2048
             && SpellAll(done) <= data[h.next..]
             && RefusedIn(layers[1..], data[h.next..][|SpellAll(done)|..], items + CountAll(done), depth + 1, false, e)
    ensures RefusedBehind(layers, data[h.next..], h, items, depth, e)
  {
    hide AllFit, SpellAll, CountAll, RefusedIn;
  }

  lemma {:induction false} ElementRefusal(data: seq<byte>, offset: nat, items: nat, depth: nat, n: nat, e: Status)
    returns (done: seq<Value>, layers: seq<Layer>)
    requires offset <= |data| && items <= 2048 && DecodeElements(data, offset, items, depth, n) == Err(e)
    ensures |done| < n && AllFit(done, depth + 1) && items + CountAll(done) <= 2048
    ensures SpellAll(done) <= data[offset..]
    ensures RefusedIn(layers, data[offset..][|SpellAll(done)|..], items + CountAll(done), depth + 1, false, e)
    decreases |data| - offset, 1
  {
    hide *;
    Limits();
    var first := DecodeItem(data, offset, items, depth + 1, false, false);
    SomeElement(data, offset, items, depth, n, e);
    if first.Err? {
      layers := RefusalFound(data, offset, items, depth + 1, false, e);
      done := [];
      NothingSpelt(done);
      NothingFits(depth + 1);
    } else {
      DecodeItemSound(data, offset, items, depth + 1, false, false);
      ItemParts(data, offset, items, depth + 1, first.value);
      ElementsStep(data, offset, items, depth, n, first.value);
      var later;
      later, layers := ElementRefusal(data, first.value.offset, first.value.items, depth, n - 1, e);
      done := [first.value.value] + later;
      assert done[1..] == later;
      SpellAllStep(done);
      FitsCons(first.value.value, later, depth + 1);
      Behind(data, offset, first.value.offset, Spell(first.value.value), SpellAll(later));
    }
  }

  lemma SomeElement(data: seq<byte>, offset: nat, items: nat, depth: nat, n: nat, e: Status)
    requires offset <= |data| && DecodeElements(data, offset, items, depth, n) == Err(e)
    ensures n > 0
    ensures var first := DecodeItem(data, offset, items, depth + 1, false, false);
            && (first.Err? ==> first == Err(e))
            && (first.Ok? ==> offset < first.value.offset <= |data|)
  {
    hide DecodeItem;
  }

  lemma NothingFits(depth: nat)
    ensures AllFit([], depth) && PairsFit([], depth) && Ascending([])
  {
  }

  lemma FitsCons(v: Value, vs: seq<Value>, depth: nat)
    requires Fits(v, depth) && AllFit(vs, depth)
    ensures AllFit([v] + vs, depth)
  {
    hide Fits;
  }

  lemma ItemParts(data: seq<byte>, offset: nat, items: nat, depth: nat, p: Parsed<Value>)
    requires SoundItem(data, offset, items, depth, p)
    ensures offset < p.offset <= |data| && data[offset..p.offset] == Spell(p.value)
    ensures p.items == items + Count(p.value) <= 2048 && Fits(p.value, depth)
    ensures p.value.Int? ==> 0 <= p.value.n < U64 && Spell(p.value) == Head(0, p.value.n) && Count(p.value) == 1
  {
    hide Head;
  }

  lemma Behind(data: seq<byte>, offset: nat, next: nat, s: seq<byte>, t: seq<byte>)
    requires offset <= next <= |data| && data[offset..next] == s && t <= data[next..]
    ensures s + t <= data[offset..] && data[offset..][|s + t|..] == data[next..][|t|..]
  {
    assert data[offset..] == s + data[next..];
    assert data[next..] == t + data[next..][|t|..];
    assert data[offset..] == (s + t) + data[next..][|t|..];
  }

  lemma {:induction false} DictRefusal(data: seq<byte>, h: HeadInfo, items: nat, depth: nat, e: Status)
    returns (layers: seq<Layer>)
    requires h.next <= |data| && h.major == 5 && h.argument <= 1024 && depth < 8 && 0 < items <= 2048
    requires DecodeEntries(data, h.next, items, depth, h.argument, None) == Err(e)
    ensures RefusedBehind(layers, data[h.next..], h, items, depth, e)
    decreases |data| - h.next, 2
  {
    hide *;
    var entries, key, inner := EntryRefusal(data, h.next, items, depth, h.argument, None, e);
    layers := [InDict(h.argument, entries, key)] + inner;
    assert layers[1..] == inner;
    DictBehind(layers, data, h, items, depth, e);
  }

  /** Behind these entries, and behind this key if one was read, comes the offending item. */
  ghost predicate EntryOffends(entries: seq<(nat, Value)>, key: Option<nat>, layers: seq<Layer>, rest: seq<byte>, items: nat,
                               depth: nat, previous: Option<nat>, e: Status)
  {
    && PairsFit(entries, depth + 1) && Ascending(entries)
    && (entries != [] && previous.Some? ==> previous.value < entries[0].0)
    && (key.Some? ==> key.value < U64
                      && (Last(entries, previous).Some? ==> Last(entries, previous).value < key.value))
    && items + PairItems(entries) + (if key.Some? then 1 else 0) <= 2048
    && var written := Pairs(entries) + (if key.Some? then Start(0, key.value) else []);
       && written <= rest
       && var more, count := rest[|written|..], items + PairItems(entries);
          if key.None? then layers == [] && KeyRefusedAfter(Last(entries, previous), more, count, depth + 1, e)
          else RefusedIn(layers, more, count + 1, depth + 1, false, e)
  }

  ghost predicate KeyRefusedAfter(previous: Option<nat>, rest: seq<byte>, items: nat, depth: nat, e: Status) {
    || Offends(rest, items, depth, false, true, e)
    || (previous.Some? && items < 2048
        && exists k: nat :: k < U64 && Head(0, k) <= rest
             && ((k == previous.value && e == Duplicate) || (k < previous.value && e == Malformed)))
  }

  lemma DictBehind(layers: seq<Layer>, data: seq<byte>, h: HeadInfo, items: nat, depth: nat, e: Status)
    requires layers != [] && layers[0].InDict? && layers[0].n == h.argument && h.major == 5
    requires h.next <= |data| && h.argument <= 1024 && depth < 8 && 0 < items
    requires |layers[0].entries| < h.argument
    requires EntryOffends(layers[0].entries, layers[0].key, layers[1..], data[h.next..], items, depth, None, e)
    ensures RefusedBehind(layers, data[h.next..], h, items, depth, e)
  {
    hide PairsFit, Ascending, Pairs, PairItems, RefusedIn, Offends, Head;
  }

  lemma {:induction false} EntryRefusal(data: seq<byte>, offset: nat, items: nat, depth: nat, n: nat, previous: Option<nat>,
                                        e: Status)
    returns (entries: seq<(nat, Value)>, key: Option<nat>, layers: seq<Layer>)
    requires offset <= |data| && items <= 2048 && DecodeEntries(data, offset, items, depth, n, previous) == Err(e)
    ensures |entries| < n && EntryOffends(entries, key, layers, data[offset..], items, depth, previous, e)
    decreases |data| - offset, 1
  {
    hide *;
    Limits();
    var first := DecodeItem(data, offset, items, depth + 1, false, true);
    SomeEntry(data, offset, items, depth, n, previous, e);
    entries, key, layers := [], None, [];
    if first.Err? {
      KeyIsNoContainer(data, offset, items, depth, e);
      KeyItself(previous, data[offset..], items, depth + 1, e);
      FirstKeyOffends(data[offset..], items, depth, previous, e);
    } else {
      var k: nat := first.value.value.n;
      DecodeItemSound(data, offset, items, depth + 1, false, true);
      ItemParts(data, offset, items, depth + 1, first.value);
      if previous.Some? && k <= previous.value {
        EntriesHead(data, offset, items, depth, n, previous, e);
        KeyPrefix(data, offset, first.value.offset, k);
        KeyOutOfOrder(previous, k, data[offset..], items, depth + 1, e);
        FirstKeyOffends(data[offset..], items, depth, previous, e);
      } else {
        var x := DecodeItem(data, first.value.offset, first.value.items, depth + 1, false, false);
        SomeValue(data, offset, items, depth, n, previous, e);
        if x.Err? {
          key := Some(k);
          layers := RefusalFound(data, first.value.offset, first.value.items, depth + 1, false, e);
          Behind(data, offset, first.value.offset, Head(0, k), []);
          FirstValueOffends(k, layers, data[offset..], data[first.value.offset..], items, depth, previous, e);
        } else {
          DecodeItemSound(data, first.value.offset, first.value.items, depth + 1, false, false);
          ItemParts(data, first.value.offset, first.value.items, depth + 1, x.value);
          EntriesStep(data, offset, items, depth, n, previous, first.value, x.value);
          var later;
          later, key, layers := EntryRefusal(data, x.value.offset, x.value.items, depth, n - 1, Some(k), e);
          entries := [(k, x.value.value)] + later;
          Adjacent(data, offset, first.value.offset, x.value.offset);
          LaterOffends(k, x.value.value, later, key, layers, data, offset, x.value.offset, items, depth, previous, e);
        }
      }
    }
  }

  lemma SomeEntry(data: seq<byte>, offset: nat, items: nat, depth: nat, n: nat, previous: Option<nat>, e: Status)
    requires offset <= |data| && DecodeEntries(data, offset, items, depth, n, previous) == Err(e)
    ensures n > 0
    ensures var first := DecodeItem(data, offset, items, depth + 1, false, true);
            && (first.Err? ==> first == Err(e))
            && (first.Ok? ==> offset < first.value.offset <= |data| && first.value.value.Int? && first.value.value.n >= 0)
  {
    hide DecodeItem;
  }

  lemma SomeValue(data: seq<byte>, offset: nat, items: nat, depth: nat, n: nat, previous: Option<nat>, e: Status)
    requires offset <= |data| && DecodeEntries(data, offset, items, depth, n, previous) == Err(e)
    requires var first := DecodeItem(data, offset, items, depth + 1, false, true);
             first.Ok? && (previous.Some? ==> previous.value < first.value.value.n)
    ensures var first := DecodeItem(data, offset, items, depth + 1, false, true).value;
            var x := DecodeItem(data, first.offset, first.items, depth + 1, false, false);
            && (x.Err? ==> x == Err(e))
            && (x.Ok? ==> first.offset < x.value.offset <= |data|)
  {
    hide DecodeItem;
  }

  lemma KeyIsNoContainer(data: seq<byte>, offset: nat, items: nat, depth: nat, e: Status)
    requires offset <= |data| && DecodeItem(data, offset, items, depth + 1, false, true) == Err(e)
    ensures Offends(data[offset..], items, depth + 1, false, true, e)
  {
    ItemRefused(data, offset, items, depth + 1, false, true, e);
    hide DecodeItem, Offends, ReadHead;
  }

  lemma FirstKeyOffends(rest: seq<byte>, items: nat, depth: nat, previous: Option<nat>, e: Status)
    requires items <= 2048
    requires KeyRefusedAfter(previous, rest, items, depth + 1, e)
    ensures EntryOffends([], None, [], rest, items, depth, previous, e)
  {
    hide Offends, Head, Fits;
  }

  lemma KeyItself(previous: Option<nat>, rest: seq<byte>, items: nat, depth: nat, e: Status)
    requires Offends(rest, items, depth, false, true, e)
    ensures KeyRefusedAfter(previous, rest, items, depth, e)
  {
    hide Offends;
  }

  lemma KeyOutOfOrder(previous: Option<nat>, k: nat, rest: seq<byte>, items: nat, depth: nat, e: Status)
    requires previous.Some? && k < U64 && Head(0, k) <= rest && items < 2048
    requires (k == previous.value && e == Duplicate) || (k < previous.value && e == Malformed)
    ensures KeyRefusedAfter(previous, rest, items, depth, e)
  {
    hide Offends, Head;
  }

  lemma KeyPrefix(data: seq<byte>, offset: nat, next: nat, k: nat)
    requires offset <= next <= |data| && k < U64 && data[offset..next] == Head(0, k)
    ensures Head(0, k) <= data[offset..]
  {
    hide Head;
    assert data[offset..][..next - offset] == data[offset..next];
  }

  lemma FirstValueOffends(k: nat, layers: seq<Layer>, rest: seq<byte>, more: seq<byte>, items: nat, depth: nat,
                          previous: Option<nat>, e: Status)
    requires k < U64 && (previous.Some? ==> previous.value < k) && items + 1 <= 2048
    requires Head(0, k) + [] <= rest && rest[|Head(0, k) + []|..] == more
    requires RefusedIn(layers, more, items + 1, depth + 1, false, e)
    ensures EntryOffends([], Some(k), layers, rest, items, depth, previous, e)
  {
    hide Head, Fits, RefusedIn;
    assert [] + Head(0, k) == Head(0, k) == Head(0, k) + [];
  }

  lemma LaterOffends(k: nat, x: Value, later: seq<(nat, Value)>, key: Option<nat>, layers: seq<Layer>, data: seq<byte>,
                     offset: nat, next: nat, items: nat, depth: nat, previous: Option<nat>, e: Status)
    requires offset <= next <= |data| && k < U64 && data[offset..next] == Head(0, k) + Spell(x) && Fits(x, depth + 1)
    requires previous.Some? ==> previous.value < k
    requires EntryOffends(later, key, layers, data[next..], items + 1 + Count(x), depth, Some(k), e)
    ensures EntryOffends([(k, x)] + later, key, layers, data[offset..], items, depth, previous, e)
  {
    hide *;
    var entries := [(k, x)] + later;
    var tail := if key.Some? then Start(0, key.value) else [];
    EntryParts(later, key, layers, data[next..], items + 1 + Count(x), depth, Some(k), e);
    EntryParts(entries, key, layers, data[offset..], items, depth, previous, e);
    AscendingCons(k, x, later, depth + 1);
    PairsOf(k, x, later);
    Behind(data, offset, next, Head(0, k) + Spell(x), Pairs(later) + tail);
    assert Pairs(entries) + tail == Head(0, k) + Spell(x) + (Pairs(later) + tail);
    assert entries[0] == (k, x);
  }

  lemma EntryParts(entries: seq<(nat, Value)>, key: Option<nat>, layers: seq<Layer>, rest: seq<byte>, items: nat,
                   depth: nat, previous: Option<nat>, e: Status)
    ensures EntryOffends(entries, key, layers, rest, items, depth, previous, e) <==>
              && PairsFit(entries, depth + 1) && Ascending(entries)
              && (entries != [] && previous.Some? ==> previous.value < entries[0].0)
              && (key.Some? ==> key.value < U64
                                && (Last(entries, previous).Some? ==> Last(entries, previous).value < key.value))
              && items + PairItems(entries) + (if key.Some? then 1 else 0) <= 2048
              && var written := Pairs(entries) + (if key.Some? then Start(0, key.value) else []);
                 && written <= rest
                 && var more, count := rest[|written|..], items + PairItems(entries);
                    if key.None? then layers == [] && KeyRefusedAfter(Last(entries, previous), more, count, depth + 1, e)
                    else RefusedIn(layers, more, count + 1, depth + 1, false, e)
  {
    hide PairsFit, Ascending, PairItems, Pairs, Last, Start, KeyRefusedAfter, RefusedIn;
  }

  lemma PairsOf(k: nat, x: Value, later: seq<(nat, Value)>)
    requires k < U64
    ensures Pairs([(k, x)] + later) == Head(0, k) + Spell(x) + Pairs(later)
    ensures PairItems([(k, x)] + later) == 1 + Count(x) + PairItems(later)
    ensures forall previous :: Last([(k, x)] + later, previous) == Last(later, Some(k))
  {
    hide Head, Spell, Count;
    assert ([(k, x)] + later)[1..] == later;
  }

  lemma AscendingCons(k: nat, x: Value, later: seq<(nat, Value)>, depth: nat)
    requires k < U64 && Fits(x, depth) && PairsFit(later, depth) && Ascending(later)
    requires later != [] ==> k < later[0].0
    ensures PairsFit([(k, x)] + later, depth) && Ascending([(k, x)] + later)
  {
    hide Fits;
  }

  // ---------------------------------------------------------------- documents

  /** A document is refused, with this status, exactly when it is too long; or when its first offending item, in
      these containers, has that fault; or, as malformed, when something follows it. */
  lemma DocumentRefused(data: seq<byte>, e: Status)
    ensures DecodeDocument(data) == Err(e) <==>
              if |data| > 16384 then e == Oversize
              else
                || (exists layers :: RefusedIn(layers, data, 0, 0, true, e))
                || (e == Malformed && exists v :: Documentable(v) && Spell(v) < data)
  {
    hide DecodeItem, RefusedIn, Documentable, Spell, Fits, Count;
    Limits();
    if |data| <= 16384 {
      assert data[0..] == data;
      if DecodeItem(data, 0, 0, 0, true, false) == Err(e) {
        var layers := RefusalFound(data, 0, 0, 0, true, e);
      }
      if layers :| RefusedIn(layers, data, 0, 0, true, e) {
        RefusedSound(layers, data, 0, 0, 0, true, e);
      }
      RestRefused(data);
    }
  }

  /** A document with something behind it is read as that document, and only such a one is read so far. */
  lemma RestRefused(data: seq<byte>)
    requires |data| <= 16384
    ensures (exists v :: Documentable(v) && Spell(v) < data) <==>
              var p := DecodeItem(data, 0, 0, 0, true, false); p.Ok? && p.value.offset != |data|
  {
    hide DecodeItem;
    Limits();
    assert data[0..] == data;
    var p := DecodeItem(data, 0, 0, 0, true, false);
    if p.Ok? {
      DecodeItemSound(data, 0, 0, 0, true, false);
      hide Spell, Fits, Count;
      assert data[0..p.value.offset] == data[..p.value.offset];
      assert Documentable(p.value.value);
    }
    if v :| Documentable(v) && Spell(v) < data {
      DecodeItemComplete(v, data, 0, 0, 0, true, false);
    }
  }

  /** After some entries of a dict, a key that repeats the last one is a duplicate and a smaller one is malformed,
      whatever follows. */
  lemma KeyOrderRefused(n: nat, entries: seq<(nat, Value)>, k: nat, more: seq<byte>)
    requires entries != [] && |entries| < n <= 1024 && PairsFit(entries, 1) && Ascending(entries)
    requires 1 + PairItems(entries) < 2048 && k < U64 && k <= entries[|entries| - 1].0
    requires |Head(5, n) + Pairs(entries) + Head(0, k) + more| <= 16384
    ensures DecodeDocument(Head(5, n) + Pairs(entries) + Head(0, k) + more)
         == Err(if k == entries[|entries| - 1].0 then Duplicate else Malformed)
  {
    var l := InDict(n, entries, None);
    var e := if k == entries[|entries| - 1].0 then Duplicate else Malformed;
    hide *;
    KeyLayer(l, 1 + PairItems(entries));
    KeyOut(entries, k, Head(0, k) + more, 1 + PairItems(entries), e);
    FourParts(Head(5, n), Pairs(entries), Head(0, k), more);
    RefusedAtKey(l, Head(0, k) + more, e);
  }

  lemma FourParts(a: seq<byte>, b: seq<byte>, c: seq<byte>, d: seq<byte>)
    ensures a + b + c + d == (a + b) + (c + d) && c <= c + d
  {
  }

  lemma RefusedAtKey(l: Layer, rest: seq<byte>, e: Status)
    requires Open(l, 0) && l.InDict? && l.key.None? && LayerItems(l) <= 2048 && |LayerBytes(l) + rest| <= 16384
    requires KeyOffends(l.entries, rest, LayerItems(l), 1, e)
    ensures DecodeDocument(LayerBytes(l) + rest) == Err(e)
  {
    hide *;
    var data := LayerBytes(l) + rest;
    assert data[|LayerBytes(l)|..] == rest;
    RefusedUnfold([l], data, 0, 0, true, e);
    assert data[0..] == data;
    RefusedSound([l], data, 0, 0, 0, true, e);
    ItemErrorStands(data, e);
  }

  lemma ItemErrorStands(data: seq<byte>, e: Status)
    requires |data| <= 16384 && DecodeItem(data, 0, 0, 0, true, false) == Err(e)
    ensures DecodeDocument(data) == Err(e)
  {
    hide DecodeItem;
  }

  lemma KeyLayer(l: Layer, items: nat)
    requires l.InDict? && l.key.None? && |l.entries| < l.n <= 1024 && PairsFit(l.entries, 1) && Ascending(l.entries)
    requires items == 1 + PairItems(l.entries)
    ensures Open(l, 0) && LayerItems(l) == items && l.n < U64 && LayerBytes(l) == Head(5, l.n) + Pairs(l.entries)
  {
    hide Head, Pairs, PairItems, PairsFit, Ascending;
    assert Head(5, l.n) + Pairs(l.entries) + [] == Head(5, l.n) + Pairs(l.entries);
  }

  lemma KeyOut(entries: seq<(nat, Value)>, k: nat, rest: seq<byte>, items: nat, e: Status)
    requires entries != [] && items < 2048 && k < U64 && Head(0, k) <= rest
    requires k <= entries[|entries| - 1].0
    requires e == if k == entries[|entries| - 1].0 then Duplicate else Malformed
    ensures KeyOffends(entries, rest, items, 1, e)
  {
    hide Head, Offends;
  }
}
