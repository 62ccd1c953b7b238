/** The type-length-value stream, after `_decode_tlvs` in tools/generate_protocol.py. */
module Tlv {
  import opened Prelude
  import opened Layout

  const CRITICAL_BIT: nat := 0x8000

  /** What the schema says about a type; `size` is negative for a free length. */
  datatype Definition = Definition(size: int, singleton: bool)

  /** The known types of a policy by their full 16-bit value. */
  type Policy = map<nat, Definition>

  datatype Entry = Entry(kind: nat, value: seq<byte>) {
    predicate Fits() {
      kind < 65536 && |value| < 65536
    }

    function BaseType(): nat {
      kind % CRITICAL_BIT
    }

    predicate Critical() {
      kind / CRITICAL_BIT % 2 == 1
    }
  }

  predicate Singleton(policy: Policy, kind: nat) {
    kind in policy && policy[kind].singleton
  }

  /** The first entry of a stream, judged against the singletons seen so far. */
  function DecodeEntry(policy: Policy, data: seq<byte>, seen: set<nat>): (r: Result<Entry, Code>)
    ensures r.Ok? ==> 4 + |r.value.value| <= |data|
  {
    if |data| < 4 then Err(BadLength)
    else
      var kind, length := FromLittleEndian(data[0..2]), FromLittleEndian(data[2..4]);
      if length > |data| - 4 then Err(BadLength)
      else
        var entry := Entry(kind, data[4..4 + length]);
        if kind !in policy && entry.Critical() then Err(UnsupportedTlv)
        else if Singleton(policy, kind) && entry.BaseType() in seen then Err(DuplicateTlv)
        else if kind in policy && policy[kind].size >= 0 && policy[kind].size != length then Err(BadLength)
        else Ok(entry)
  }

  function Remember(policy: Policy, entry: Entry, seen: set<nat>): set<nat> {
    if Singleton(policy, entry.kind) then seen + {entry.BaseType()} else seen
  }

  function DecodeFrom(policy: Policy, data: seq<byte>, seen: set<nat>): Result<seq<Entry>, Code>
    decreases |data|
  {
    if data == [] then Ok([])
    else
      var entry :- DecodeEntry(policy, data, seen);
      var rest :- DecodeFrom(policy, data[4 + |entry.value|..], Remember(policy, entry, seen));
      Ok([entry] + rest)
  }

  function DecodeSpec(policy: Policy, data: seq<byte>): Result<seq<Entry>, Code> {
    DecodeFrom(policy, data, {})
  }

  /** The checks of one turn of the loop. */
  method NextEntry(policy: Policy, data: seq<byte>, start: nat, seen: set<nat>) returns (r: Result<Entry, Code>)
    requires start < |data|
    ensures r == DecodeEntry(policy, data[start..], seen)
  {
    ghost var rest := data[start..];
    var cursor := start;
    if |data| - cursor < 4 {
      return Err(BadLength);
    }
    assert data[cursor..cursor + 2] == rest[0..2] && data[cursor + 2..cursor + 4] == rest[2..4];
    hide FromLittleEndian, Singleton;
    var kind, length := FromLittleEndian(data[cursor..cursor + 2]), FromLittleEndian(data[cursor + 2..cursor + 4]);
    cursor := cursor + 4;
    if length > |data| - cursor {
      return Err(BadLength);
    }
    var entry := Entry(kind, data[cursor..cursor + length]);
    assert entry.value == rest[4..4 + length];
    if kind !in policy && entry.Critical() {
      return Err(UnsupportedTlv);
    }
    if Singleton(policy, kind) && entry.BaseType() in seen {
      return Err(DuplicateTlv);
    }
    if kind in policy && policy[kind].size >= 0 && policy[kind].size != length {
      return Err(BadLength);
    }
    r := Ok(entry);
  }

  method Decode(policy: Policy, data: seq<byte>) returns (r: Result<seq<Entry>, Code>)
    ensures r == DecodeSpec(policy, data)
  {
    var entries: seq<Entry> := [];
    var seen: set<nat> := {};
    var cursor := 0;
    assert data[0..] == data;
    PrependStep([], [], DecodeFrom(policy, data, {}));
    hide *;
    while cursor < |data|
      invariant cursor <= |data|
      invariant DecodeFrom(policy, data, {}) == Prepend(entries, DecodeFrom(policy, data[cursor..], seen))
    {
      NextTurn(policy, data, cursor, seen, entries);
      var entry :- NextEntry(policy, data, cursor, seen);
      cursor := cursor + 4 + |entry.value|;
      seen := Remember(policy, entry, seen);
      entries := entries + [entry];
    }
    NoTurn(policy, data[cursor..], seen, entries);
    r := Ok(entries);
    SpecUnfold(policy, data);
  }

  lemma SpecUnfold(policy: Policy, data: seq<byte>)
    ensures DecodeSpec(policy, data) == DecodeFrom(policy, data, {})
  {
    hide DecodeFrom;
  }

  lemma NextTurn(policy: Policy, data: seq<byte>, cursor: nat, seen: set<nat>, done: seq<Entry>)
    requires cursor < |data|
    ensures var next := DecodeEntry(policy, data[cursor..], seen);
            && (next.Ok? ==> cursor + 4 + |next.value.value| <= |data|)
            && Prepend(done, DecodeFrom(policy, data[cursor..], seen))
               == if next.Err? then Err(next.error)
                  else Prepend(done + [next.value], DecodeFrom(policy, data[cursor + 4 + |next.value.value|..],
                                                               Remember(policy, next.value, seen)))
  {
    hide *;
    var next := DecodeEntry(policy, data[cursor..], seen);
    FromStep(policy, data[cursor..], seen);
    if next.Err? {
      PrependError<Entry, Code>(done, next.error);
    } else {
      var size := 4 + |next.value.value|;
      assert data[cursor..][size..] == data[cursor + size..];
      PrependStep(done, [next.value], DecodeFrom(policy, data[cursor + size..], Remember(policy, next.value, seen)));
    }
  }

  lemma NoTurn(policy: Policy, data: seq<byte>, seen: set<nat>, done: seq<Entry>)
    requires data == []
    ensures Prepend(done, DecodeFrom(policy, data, seen)) == Ok(done)
  {
    FromNothing(policy, data, seen);
    assert done + [] == done;
  }

  lemma FromNothing(policy: Policy, data: seq<byte>, seen: set<nat>)
    requires data == []
    ensures DecodeFrom(policy, data, seen) == Ok([])
  {
  }

  lemma FromStep(policy: Policy, data: seq<byte>, seen: set<nat>)
    requires data != []
    ensures var entry := DecodeEntry(policy, data, seen);
            DecodeFrom(policy, data, seen)
              == if entry.Err? then Err(entry.error)
                 else Prepend([entry.value], DecodeFrom(policy, data[4 + |entry.value.value|..],
                                                     Remember(policy, entry.value, seen)))
  {
    hide DecodeEntry, Remember;
  }

  // ---------------------------------------------------------------- meaning

  function Serialize(entry: Entry): seq<byte> {
    LittleEndian(entry.kind, 2) + LittleEndian(|entry.value|, 2) + entry.value
  }

  function SerializeAll(entries: seq<Entry>): seq<byte> {
    if entries == [] then [] else Serialize(entries[0]) + SerializeAll(entries[1..])
  }

  /** What a policy demands of one entry by itself. */
  predicate Lawful(policy: Policy, entry: Entry) {
    && entry.Fits()
    && (entry.kind in policy || !entry.Critical())
    && (entry.kind in policy && policy[entry.kind].size >= 0 ==> policy[entry.kind].size == |entry.value|)
  }

  predicate AllLawful(policy: Policy, entries: seq<Entry>) {
    forall i :: 0 <= i < |entries| ==> Lawful(policy, entries[i])
  }

  predicate SingletonsOnce(policy: Policy, entries: seq<Entry>) {
    forall i, j :: 0 <= i < j < |entries| && Singleton(policy, entries[i].kind) && Singleton(policy, entries[j].kind) ==>
      entries[i].BaseType() != entries[j].BaseType()
  }

  predicate SingletonsNew(policy: Policy, entries: seq<Entry>, seen: set<nat>) {
    forall i :: 0 <= i < |entries| && Singleton(policy, entries[i].kind) ==> entries[i].BaseType() !in seen
  }

  lemma EntryMeaning(policy: Policy, data: seq<byte>, seen: set<nat>, entry: Entry)
    ensures DecodeEntry(policy, data, seen) == Ok(entry) <==>
              && Lawful(policy, entry)
              && (Singleton(policy, entry.kind) ==> entry.BaseType() !in seen)
              && Serialize(entry) <= data
  {
    TwoBytes();
    if DecodeEntry(policy, data, seen) == Ok(entry) {
      FromLittleEndianRoundTrip(data[0..2]);
      FromLittleEndianRoundTrip(data[2..4]);
      hide LittleEndian, FromLittleEndian, Pow256;
      assert Serialize(entry) == data[..4 + |entry.value|];
    }
    if Lawful(policy, entry) && Serialize(entry) <= data {
      LittleEndianRoundTrip(entry.kind, 2);
      LittleEndianRoundTrip(|entry.value|, 2);
      hide LittleEndian, FromLittleEndian, Pow256;
      var s := Serialize(entry);
      assert s == data[..|s|];
      assert data[0..2] == s[0..2] == LittleEndian(entry.kind, 2);
      assert data[2..4] == s[2..4] == LittleEndian(|entry.value|, 2);
      assert data[4..|s|] == s[4..] == entry.value;
    }
  }

  lemma TwoBytes()
    ensures Pow256(2) == 65536
  {
    assert Pow256(1) == 256;
  }

  lemma {:induction false} StreamMeaning(policy: Policy, data: seq<byte>, seen: set<nat>, entries: seq<Entry>)
    ensures DecodeFrom(policy, data, seen) == Ok(entries) <==>
              && SerializeAll(entries) == data
              && AllLawful(policy, entries)
              && SingletonsOnce(policy, entries)
              && SingletonsNew(policy, entries, seen)
    decreases |data|
  {
    if data == [] {
      EmptyStream(entries);
    } else {
      FromStep(policy, data, seen);
      hide DecodeEntry, DecodeFrom, Serialize, Lawful;
      if DecodeFrom(policy, data, seen) == Ok(entries) {
        var entry := DecodeEntry(policy, data, seen).value;
        EntryMeaning(policy, data, seen, entry);
        StreamStep(policy, data, seen, entry, entries);
      }
      if SerializeAll(entries) == data && AllLawful(policy, entries) && SingletonsOnce(policy, entries)
         && SingletonsNew(policy, entries, seen)
      {
        assert entries != [];
        EntryMeaning(policy, data, seen, entries[0]);
        StreamStep(policy, data, seen, entries[0], entries);
      }
    }
  }

  lemma EmptyStream(entries: seq<Entry>)
    ensures SerializeAll(entries) == [] <==> entries == []
  {
    if entries != [] {
      assert |Serialize(entries[0])| >= 4;
    }
  }

  lemma {:induction false} StreamStep(policy: Policy, data: seq<byte>, seen: set<nat>, entry: Entry, entries: seq<Entry>)
    requires DecodeEntry(policy, data, seen) == Ok(entry) && Serialize(entry) <= data && Lawful(policy, entry)
    requires Singleton(policy, entry.kind) ==> entry.BaseType() !in seen
    requires (entries != [] && entries[0] == entry)
             || DecodeFrom(policy, data, seen) == Ok(entries)
    ensures DecodeFrom(policy, data, seen) == Ok(entries) <==>
              && SerializeAll(entries) == data
              && AllLawful(policy, entries)
              && SingletonsOnce(policy, entries)
              && SingletonsNew(policy, entries, seen)
    decreases |data|, 0
  {
    hide *;
    SerializedSize(entry);
    FromStep(policy, data, seen);
    var tail, wider := data[4 + |entry.value|..], Remember(policy, entry, seen);
    assert data == Serialize(entry) + tail;
    var first, rest := EntriesSplit(policy, tail, wider, entry, entries, DecodeFrom(policy, data, seen));
    StreamMeaning(policy, tail, wider, rest);
    LawsSplit(policy, entry, rest, seen);
    SerializedSplit(entry, rest, tail);
  }

  lemma SerializedSize(entry: Entry)
    ensures |Serialize(entry)| == 4 + |entry.value|
  {
  }

  lemma EntriesSplit(policy: Policy, tail: seq<byte>, wider: set<nat>, entry: Entry, entries: seq<Entry>,
                     whole: Result<seq<Entry>, Code>) returns (first: Entry, rest: seq<Entry>)
    requires whole == Prepend([entry], DecodeFrom(policy, tail, wider))
    requires (entries != [] && entries[0] == entry) || whole == Ok(entries)
    ensures entries == [first] + rest && first == entry
    ensures whole == Ok(entries) <==> DecodeFrom(policy, tail, wider) == Ok(rest)
  {
    hide DecodeFrom;
    first, rest := entries[0], entries[1..];
    if DecodeFrom(policy, tail, wider).Ok? {
      var more := DecodeFrom(policy, tail, wider).value;
      assert ([entry] + more)[1..] == more && ([entry] + rest)[1..] == rest;
    }
  }

  lemma SerializedSplit(entry: Entry, rest: seq<Entry>, tail: seq<byte>)
    ensures SerializeAll([entry] + rest) == Serialize(entry) + tail <==> SerializeAll(rest) == tail
  {
    hide Serialize;
    assert ([entry] + rest)[1..] == rest;
    assert (Serialize(entry) + SerializeAll(rest))[|Serialize(entry)|..] == SerializeAll(rest);
    assert (Serialize(entry) + tail)[|Serialize(entry)|..] == tail;
  }

  lemma LawsSplit(policy: Policy, entry: Entry, rest: seq<Entry>, seen: set<nat>)
    ensures var entries := [entry] + rest;
            && (AllLawful(policy, entries) <==> Lawful(policy, entry) && AllLawful(policy, rest))
            && (SingletonsOnce(policy, entries) && SingletonsNew(policy, entries, seen) <==>
                  (Singleton(policy, entry.kind) ==> entry.BaseType() !in seen)
                  && SingletonsOnce(policy, rest) && SingletonsNew(policy, rest, Remember(policy, entry, seen)))
  {
    var entries := [entry] + rest;
    LawfulSplit(policy, entry, rest);
    hide Lawful, AllLawful, Singleton, Remember;
    if SingletonsOnce(policy, entries) && SingletonsNew(policy, entries, seen) {
      hide SingletonsOnce, SingletonsNew;
      SingletonsBehind(policy, entry, rest, seen);
    }
    if (Singleton(policy, entry.kind) ==> entry.BaseType() !in seen)
       && SingletonsOnce(policy, rest) && SingletonsNew(policy, rest, Remember(policy, entry, seen))
    {
      hide SingletonsOnce, SingletonsNew;
      SingletonsBefore(policy, entry, rest, seen);
    }
  }

  lemma SingletonsBehind(policy: Policy, entry: Entry, rest: seq<Entry>, seen: set<nat>)
    requires SingletonsOnce(policy, [entry] + rest) && SingletonsNew(policy, [entry] + rest, seen)
    ensures Singleton(policy, entry.kind) ==> entry.BaseType() !in seen
    ensures SingletonsOnce(policy, rest) && SingletonsNew(policy, rest, Remember(policy, entry, seen))
  {
    hide Singleton;
    var entries := [entry] + rest;
    assert entries[0] == entry && forall i :: 0 <= i < |rest| ==> entries[i + 1] == rest[i];
    forall i, j | 0 <= i < j < |rest| && Singleton(policy, rest[i].kind) && Singleton(policy, rest[j].kind)
      ensures rest[i].BaseType() != rest[j].BaseType()
    {
      assert entries[i + 1].BaseType() != entries[j + 1].BaseType();
    }
    forall i | 0 <= i < |rest| && Singleton(policy, rest[i].kind)
      ensures rest[i].BaseType() !in Remember(policy, entry, seen)
    {
      assert entries[i + 1].BaseType() !in seen;
      assert Singleton(policy, entry.kind) ==> entries[0].BaseType() != entries[i + 1].BaseType();
    }
  }

  lemma SingletonsBefore(policy: Policy, entry: Entry, rest: seq<Entry>, seen: set<nat>)
    requires Singleton(policy, entry.kind) ==> entry.BaseType() !in seen
    requires SingletonsOnce(policy, rest) && SingletonsNew(policy, rest, Remember(policy, entry, seen))
    ensures SingletonsOnce(policy, [entry] + rest) && SingletonsNew(policy, [entry] + rest, seen)
  {
    hide Singleton;
    var entries := [entry] + rest;
    forall i | 0 <= i < |entries| && Singleton(policy, entries[i].kind) ensures entries[i].BaseType() !in seen {
      assert i > 0 ==> entries[i] == rest[i - 1];
    }
    forall i, j | 0 <= i < j < |entries| && Singleton(policy, entries[i].kind) && Singleton(policy, entries[j].kind)
      ensures entries[i].BaseType() != entries[j].BaseType()
    {
      assert entries[j] == rest[j - 1];
      assert i > 0 ==> entries[i] == rest[i - 1];
    }
  }

  lemma LawfulSplit(policy: Policy, entry: Entry, rest: seq<Entry>)
    ensures AllLawful(policy, [entry] + rest) <==> Lawful(policy, entry) && AllLawful(policy, rest)
  {
    hide Lawful;
    var entries := [entry] + rest;
    assert forall i :: 0 <= i < |rest| ==> entries[i + 1] == rest[i];
    if AllLawful(policy, entries) {
      assert Lawful(policy, entries[0]);
      forall i | 0 <= i < |rest| ensures Lawful(policy, rest[i]) {
        assert Lawful(policy, entries[i + 1]);
      }
    }
  }

  /** A stream is accepted as `entries` exactly when it is their concatenation, every unknown entry is
      non-critical, every size is right, and no two singletons share a base type. */
  lemma TlvBijection(policy: Policy, data: seq<byte>, entries: seq<Entry>)
    ensures DecodeSpec(policy, data) == Ok(entries) <==>
              && SerializeAll(entries) == data
              && AllLawful(policy, entries)
              && SingletonsOnce(policy, entries)
  {
    StreamMeaning(policy, data, {}, entries);
  }

  lemma {:induction false} SerializeAppend(entries: seq<Entry>, entry: Entry)
    ensures SerializeAll(entries + [entry]) == SerializeAll(entries) + Serialize(entry)
  {
    if entries == [] {
      assert [] + [entry] == [entry] && [entry][1..] == [];
      assert SerializeAll([]) == [];
    } else {
      assert (entries + [entry])[1..] == entries[1..] + [entry];
      SerializeAppend(entries[1..], entry);
      hide Serialize;
    }
  }

  /** A stream stays acceptable when an entry unknown to the policy and not critical is appended, and
      yields exactly that entry more. */
  lemma UnknownAppended(policy: Policy, data: seq<byte>, entry: Entry)
    requires DecodeSpec(policy, data).Ok?
    requires entry.Fits() && entry.kind !in policy && !entry.Critical()
    ensures DecodeSpec(policy, data + Serialize(entry)) == Ok(DecodeSpec(policy, data).value + [entry])
  {
    var entries := DecodeSpec(policy, data).value;
    TlvBijection(policy, data, entries);
    SerializeAppend(entries, entry);
    TlvBijection(policy, data + Serialize(entry), entries + [entry]);
    hide DecodeSpec, Serialize, SerializeAll;
  }

  /** An unknown critical entry anywhere makes the whole stream unacceptable. */
  lemma UnknownCriticalRejected(policy: Policy, entries: seq<Entry>, i: nat)
    requires i < |entries| && entries[i].kind !in policy && entries[i].Critical()
    requires forall j :: 0 <= j < |entries| ==> entries[j].Fits()
    ensures DecodeSpec(policy, SerializeAll(entries)).Err?
  {
    if DecodeSpec(policy, SerializeAll(entries)).Ok? {
      AcceptedIsLawful(policy, entries);
    }
  }

  lemma AcceptedIsLawful(policy: Policy, entries: seq<Entry>)
    requires DecodeSpec(policy, SerializeAll(entries)).Ok?
    requires forall j :: 0 <= j < |entries| ==> entries[j].Fits()
    ensures AllLawful(policy, entries)
  {
    var others := DecodeSpec(policy, SerializeAll(entries)).value;
    TlvBijection(policy, SerializeAll(entries), others);
    SerializationInjective(entries, others);
  }

  lemma {:induction false} SerializationInjective(a: seq<Entry>, b: seq<Entry>)
    requires SerializeAll(a) == SerializeAll(b)
    requires (forall i :: 0 <= i < |a| ==> a[i].Fits()) && (forall i :: 0 <= i < |b| ==> b[i].Fits())
    ensures a == b
  {
    EmptyStream(a);
    EmptyStream(b);
    if a != [] && b != [] {
      assert Serialize(a[0]) <= SerializeAll(a) && Serialize(b[0]) <= SerializeAll(b);
      HeadInjective(a[0], b[0], SerializeAll(a));
      hide Serialize;
      SerializedSplit(a[0], a[1..], SerializeAll(b[1..]));
      assert a == [a[0]] + a[1..] && b == [b[0]] + b[1..];
      SerializationInjective(a[1..], b[1..]);
    }
  }

  lemma HeadInjective(x: Entry, y: Entry, data: seq<byte>)
    requires x.Fits() && y.Fits() && Serialize(x) <= data && Serialize(y) <= data
    ensures x == y
  {
    TwoBytes();
    LittleEndianRoundTrip(x.kind, 2);
    LittleEndianRoundTrip(y.kind, 2);
    LittleEndianRoundTrip(|x.value|, 2);
    LittleEndianRoundTrip(|y.value|, 2);
    hide LittleEndian, FromLittleEndian, Pow256;
    var s, t := Serialize(x), Serialize(y);
    assert data[0..2] == s[0..2] == LittleEndian(x.kind, 2) && data[0..2] == t[0..2] == LittleEndian(y.kind, 2);
    assert data[2..4] == s[2..4] == LittleEndian(|x.value|, 2) && data[2..4] == t[2..4] == LittleEndian(|y.value|, 2);
    assert x.value == s[4..] == data[4..4 + |x.value|];
    assert y.value == t[4..] == data[4..4 + |y.value|];
  }
}
