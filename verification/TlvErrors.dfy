/** Which code a refused type-length-value stream gets: that of the first entry which is not acceptable after the
 *  entries before it. */
module TlvErrors {
  import opened Prelude
  import opened Complaints
  import opened Layout
  import opened Tlv

  /** Type and length are two bytes each, the lower one first. */
  lemma SerializeMeaning(entry: Entry)
    requires entry.kind < 0x1_0000 && |entry.value| < 0x1_0000
    ensures Serialize(entry)
         == [entry.kind % 256, entry.kind / 256, |entry.value| % 256, |entry.value| / 256] + entry.value
  {
    TwoLow(entry.kind);
    TwoLow(|entry.value|);
    hide LittleEndian;
  }

  function Word(low: nat, high: nat): nat {
    low + 256 * high
  }

  lemma TwoLow(n: nat)
    requires n < 0x1_0000
    ensures LittleEndian(n, 2) == [n % 256, n / 256]
  {
    assert LittleEndian(n / 256, 1) == [n / 256 % 256] + LittleEndian(n / 256 / 256, 0);
  }

  lemma TwoRead(raw: seq<byte>)
    requires |raw| == 2
    ensures FromLittleEndian(raw) == Word(raw[0], raw[1])
  {
    assert FromLittleEndian(raw[1..]) == raw[1] + 256 * FromLittleEndian(raw[1..][1..]);
  }

  /** An entry of the same base type, which the policy allows once, has come before. */
  ghost predicate Repeated(policy: Policy, before: seq<Entry>, kind: nat) {
    exists i :: 0 <= i < |before| && before[i].kind in policy && policy[before[i].kind].singleton
                && before[i].kind % 0x8000 == kind % 0x8000
  }

  /** What the next entry is refused for. */
  ghost function NextComplaint(policy: Policy, before: seq<Entry>, rest: seq<byte>): Option<Code> {
    if |rest| < 4 then Some(BadLength)
    else
      var kind, length := Word(rest[0], rest[1]), Word(rest[2], rest[3]);
      Then(When(4 + length > |rest|, BadLength),
      Then(When(kind !in policy && kind >= 0x8000, UnsupportedTlv),
      Then(When(kind in policy && policy[kind].singleton && Repeated(policy, before, kind), DuplicateTlv),
           When(kind in policy && policy[kind].size >= 0 && policy[kind].size != length, BadLength))))
  }

  // ---------------------------------------------------------------- the singletons seen so far

  /** The base types of the singletons. */
  function Seen(policy: Policy, before: seq<Entry>): set<nat> {
    if before == [] then {} else Remember(policy, before[0], {}) + Seen(policy, before[1..])
  }

  lemma {:induction false} SeenMeaning(policy: Policy, before: seq<Entry>, kind: nat)
    ensures kind % 0x8000 in Seen(policy, before) <==> Repeated(policy, before, kind)
  {
    if before != [] {
      var rest := before[1..];
      SeenMeaning(policy, rest, kind);
      assert forall i :: 0 < i < |before| ==> before[i] == rest[i - 1];
      if Repeated(policy, rest, kind) {
        var i :| 0 <= i < |rest| && rest[i].kind in policy && policy[rest[i].kind].singleton
                 && rest[i].kind % 0x8000 == kind % 0x8000;
        assert before[i + 1] == rest[i];
      }
    }
  }

  lemma EntryComplains(policy: Policy, before: seq<Entry>, rest: seq<byte>)
    ensures Of(DecodeEntry(policy, rest, Seen(policy, before))) == NextComplaint(policy, before, rest)
  {
    if |rest| >= 4 {
      TwoRead(rest[0..2]);
      TwoRead(rest[2..4]);
      SeenMeaning(policy, before, Word(rest[0], rest[1]));
      hide FromLittleEndian, Seen, Repeated, Word;
    }
  }

  // ---------------------------------------------------------------- the entries before

  lemma SeenStep(policy: Policy, entry: Entry, rest: seq<Entry>, seen: set<nat>)
    ensures seen + Seen(policy, [entry] + rest) == Remember(policy, entry, seen) + Seen(policy, rest)
  {
    assert ([entry] + rest)[1..] == rest;
  }

  /** Acceptable entries are read, and the rest is judged by what they leave. */
  lemma {:induction false} ReadOn(policy: Policy, before: seq<Entry>, rest: seq<byte>, seen: set<nat>)
    requires AllLawful(policy, before) && SingletonsOnce(policy, before) && SingletonsNew(policy, before, seen)
    ensures DecodeFrom(policy, SerializeAll(before) + rest, seen)
         == Prepend(before, DecodeFrom(policy, rest, seen + Seen(policy, before)))
  {
    hide *;
    if before == [] {
      ReadNone(policy, rest, seen);
    } else {
      var entry, others := before[0], before[1..];
      assert before == [entry] + others;
      var data := SerializeAll(before) + rest;
      ReadFirst(policy, entry, others, rest, seen);
      LawsSplit(policy, entry, others, seen);
      ReadOn(policy, others, rest, Remember(policy, entry, seen));
      SeenStep(policy, entry, others, seen);
      PrependStep([entry], others, DecodeFrom(policy, rest, seen + Seen(policy, before)));
    }
  }

  lemma ReadNone(policy: Policy, rest: seq<byte>, seen: set<nat>)
    ensures DecodeFrom(policy, SerializeAll([]) + rest, seen)
         == Prepend([], DecodeFrom(policy, rest, seen + Seen(policy, [])))
  {
    assert SerializeAll([]) + rest == rest && seen + {} == seen;
    PrependStep([], [], DecodeFrom(policy, rest, seen));
    hide DecodeFrom;
  }

  lemma ReadFirst(policy: Policy, entry: Entry, others: seq<Entry>, rest: seq<byte>, seen: set<nat>)
    requires AllLawful(policy, [entry] + others) && SingletonsNew(policy, [entry] + others, seen)
    ensures DecodeFrom(policy, SerializeAll([entry] + others) + rest, seen)
         == Prepend([entry], DecodeFrom(policy, SerializeAll(others) + rest, Remember(policy, entry, seen)))
  {
    var before := [entry] + others;
    assert before[0] == entry && before[1..] == others;
    var data := SerializeAll(before) + rest;
    assert data == Serialize(entry) + (SerializeAll(others) + rest);
    EntryMeaning(policy, data, seen, entry);
    SerializedSize(entry);
    FromStep(policy, data, seen);
    hide DecodeFrom, DecodeEntry, Serialize, SerializeAll, Lawful, Remember;
  }

  lemma ReadAll(policy: Policy, before: seq<Entry>, rest: seq<byte>)
    requires DecodeSpec(policy, SerializeAll(before)) == Ok(before)
    ensures DecodeSpec(policy, SerializeAll(before) + rest)
         == Prepend(before, DecodeFrom(policy, rest, Seen(policy, before)))
  {
    TlvBijection(policy, SerializeAll(before), before);
    NoneSeen(policy, before);
    ReadOn(policy, before, rest, {});
    SpecUnfold(policy, SerializeAll(before) + rest);
    assert {} + Seen(policy, before) == Seen(policy, before);
    hide *;
  }

  lemma NoneSeen(policy: Policy, entries: seq<Entry>)
    ensures SingletonsNew(policy, entries, {})
  {
  }

  // ---------------------------------------------------------------- refused streams

  /** The stream splits into acceptable entries and a rest whose first entry is refused for this. */
  ghost predicate Offends(policy: Policy, data: seq<byte>, before: seq<Entry>, rest: seq<byte>, e: Code) {
    && rest != []
    && data == SerializeAll(before) + rest
    && DecodeSpec(policy, SerializeAll(before)) == Ok(before)
    && NextComplaint(policy, before, rest) == Some(e)
  }

  /** A stream is refused, and with this code, exactly when its first unacceptable entry is refused for it. */
  lemma StreamRefused(policy: Policy, data: seq<byte>, e: Code)
    ensures DecodeSpec(policy, data) == Err(e) <==> exists before, rest :: Offends(policy, data, before, rest, e)
  {
    hide *;
    if before, rest :| Offends(policy, data, before, rest, e) {
      OffenderRefused(policy, data, before, rest, e);
    }
    if DecodeSpec(policy, data) == Err(e) {
      FromFront(policy, data);
      FindOffender(policy, data, [], data, e);
    }
  }

  lemma FromFront(policy: Policy, data: seq<byte>)
    ensures data == SerializeAll([]) + data && DecodeSpec(policy, SerializeAll([])) == Ok([])
  {
  }

  lemma OffenderRefused(policy: Policy, data: seq<byte>, before: seq<Entry>, rest: seq<byte>, e: Code)
    requires Offends(policy, data, before, rest, e)
    ensures DecodeSpec(policy, data) == Err(e)
  {
    ReadAll(policy, before, rest);
    EntryComplains(policy, before, rest);
    FromStep(policy, rest, Seen(policy, before));
    PrependError<Entry, Code>(before, e);
    hide DecodeSpec, DecodeFrom, DecodeEntry, NextComplaint, Seen, SerializeAll;
  }

  lemma {:induction false} FindOffender(policy: Policy, data: seq<byte>, before: seq<Entry>, rest: seq<byte>, e: Code)
    requires data == SerializeAll(before) + rest && DecodeSpec(policy, SerializeAll(before)) == Ok(before)
    requires DecodeSpec(policy, data) == Err(e)
    ensures exists b, r :: Offends(policy, data, b, r, e)
    decreases |rest|
  {
    hide *;
    ReadAll(policy, before, rest);
    var seen := Seen(policy, before);
    var next := DecodeEntry(policy, rest, seen);
    RestLeft(policy, before, rest, e);
    if next.Err? {
      OffenderIs(policy, data, before, rest, e);
    } else {
      var entry, more := next.value, rest[4 + |next.value.value|..];
      EntryRead(policy, before, rest, entry);
      assert data == SerializeAll(before + [entry]) + more;
      FindOffender(policy, data, before + [entry], more, e);
    }
  }

  lemma RestLeft(policy: Policy, before: seq<Entry>, rest: seq<byte>, e: Code)
    requires Prepend(before, DecodeFrom(policy, rest, Seen(policy, before))) == Err(e)
    ensures rest != []
    ensures var next := DecodeEntry(policy, rest, Seen(policy, before));
            if next.Err? then next.error == e else 4 + |next.value.value| <= |rest|
  {
    var seen := Seen(policy, before);
    if rest == [] {
      FromNothing(policy, rest, seen);
    } else {
      FromStep(policy, rest, seen);
    }
    hide DecodeFrom, DecodeEntry, Seen;
  }

  lemma OffenderIs(policy: Policy, data: seq<byte>, before: seq<Entry>, rest: seq<byte>, e: Code)
    requires data == SerializeAll(before) + rest && DecodeSpec(policy, SerializeAll(before)) == Ok(before)
    requires rest != [] && DecodeEntry(policy, rest, Seen(policy, before)) == Err(e)
    ensures Offends(policy, data, before, rest, e)
  {
    EntryComplains(policy, before, rest);
    hide DecodeSpec, DecodeEntry, NextComplaint, Seen, SerializeAll;
  }

  /** One more entry that can be read. */
  lemma EntryRead(policy: Policy, before: seq<Entry>, rest: seq<byte>, entry: Entry)
    requires DecodeSpec(policy, SerializeAll(before)) == Ok(before)
    requires 4 + |entry.value| <= |rest| && DecodeEntry(policy, rest, Seen(policy, before)) == Ok(entry)
    ensures SerializeAll(before) + rest == SerializeAll(before + [entry]) + rest[4 + |entry.value|..]
    ensures DecodeSpec(policy, SerializeAll(before + [entry])) == Ok(before + [entry])
  {
    hide *;
    var seen := Seen(policy, before);
    EntryMeaning(policy, rest, seen, entry);
    EntryMeaning(policy, Serialize(entry), seen, entry);
    SerializedSize(entry);
    SerializeAppend(before, entry);
    ReadAll(policy, before, Serialize(entry));
    SoleEntry(policy, entry, seen);
    PrependOk(before, [entry]);
    Regrouped(SerializeAll(before), Serialize(entry), rest);
  }

  lemma SoleEntry(policy: Policy, entry: Entry, seen: set<nat>)
    requires DecodeEntry(policy, Serialize(entry), seen) == Ok(entry)
    ensures DecodeFrom(policy, Serialize(entry), seen) == Ok([entry])
    ensures Serialize(entry) <= Serialize(entry)
  {
    FromStep(policy, Serialize(entry), seen);
    FromNothing(policy, [], Remember(policy, entry, seen));
    SerializedSize(entry);
    assert Serialize(entry)[4 + |entry.value|..] == [];
    PrependOk([entry], []);
    assert [entry] + [] == [entry];
    hide DecodeFrom, DecodeEntry, Serialize, Remember;
  }

  lemma PrependOk(before: seq<Entry>, more: seq<Entry>)
    ensures Prepend<Entry, Code>(before, Ok(more)) == Ok(before + more)
  {
  }

  lemma Regrouped(front: seq<byte>, middle: seq<byte>, rest: seq<byte>)
    requires middle <= rest
    ensures front + rest == front + middle + rest[|middle|..]
  {
  }
}
