/** Shared vocabulary: bytes, results, and integers written as fixed-width byte strings. */
module Prelude {

  type byte = b: int | 0 <= b < 256

  datatype Option<+T> = None | Some(value: T) {
    function GetOr(default: T): T {
      if Some? then value else default
    }
  }

  datatype Result<+T, +E> = Ok(value: T) | Err(error: E) {
    predicate IsFailure() {
      Err?
    }

    function PropagateFailure<U>(): Result<U, E>
      requires Err?
    {
      Err(error)
    }

    function Extract(): T
      requires Ok?
    {
      value
    }
  }

  /** What a loop has collected, in front of what the rest of the input yields. */
  ghost function Prepend<T, E>(done: seq<T>, rest: Result<seq<T>, E>): Result<seq<T>, E> {
    if rest.Err? then rest else Ok(done + rest.value)
  }

  lemma PrependStep<T, E>(done: seq<T>, more: seq<T>, rest: Result<seq<T>, E>)
    ensures Prepend([], rest) == rest
    ensures Prepend(done, Prepend(more, rest)) == Prepend(done + more, rest)
  {
    if rest.Ok? {
      assert [] + rest.value == rest.value;
      assert done + (more + rest.value) == done + more + rest.value;
    }
  }

  lemma PrependError<T, E>(done: seq<T>, e: E)
    ensures Prepend(done, Err(e)) == Err(e)
  {
  }

  function Pow256(width: nat): (p: nat)
    ensures p > 0
  {
    if width == 0 then 1 else 256 * Pow256(width - 1)
  }

  /** `n.to_bytes(width, "big")` for an `n` that fits. */
  function BigEndian(n: nat, width: nat): (s: seq<byte>)
    ensures |s| == width
  {
    if width == 0 then [] else BigEndian(n / 256, width - 1) + [n % 256]
  }

  /** `int.from_bytes(s, "big")`. */
  function FromBigEndian(s: seq<byte>): nat {
    if s == [] then 0 else FromBigEndian(s[..|s| - 1]) * 256 + s[|s| - 1]
  }

  /** `n.to_bytes(width, "little")` for an `n` that fits. */
  function LittleEndian(n: nat, width: nat): (s: seq<byte>)
    ensures |s| == width
  {
    if width == 0 then [] else [n % 256] + LittleEndian(n / 256, width - 1)
  }

  /** `int.from_bytes(s, "little")`. */
  function FromLittleEndian(s: seq<byte>): nat {
    if s == [] then 0 else s[0] + 256 * FromLittleEndian(s[1..])
  }

  function Zeros(n: nat): (s: seq<byte>)
    ensures |s| == n
    ensures forall i :: 0 <= i < n ==> s[i] == 0
  {
    seq(n, _ => 0)
  }

  predicate AllZero(s: seq<byte>) {
    forall i :: 0 <= i < |s| ==> s[i] == 0
  }

  predicate Distinct<T(==)>(s: seq<T>) {
    forall i, j :: 0 <= i < j < |s| ==> s[i] != s[j]
  }

  lemma {:induction false} BigEndianRoundTrip(n: nat, width: nat)
    requires n < Pow256(width)
    ensures FromBigEndian(BigEndian(n, width)) == n
  {
    if width > 0 {
      BigEndianRoundTrip(n / 256, width - 1);
      var s := BigEndian(n, width);
      assert s[..|s| - 1] == BigEndian(n / 256, width - 1);
    }
  }

  lemma {:induction false} FromBigEndianRoundTrip(s: seq<byte>)
    ensures FromBigEndian(s) < Pow256(|s|)
    ensures BigEndian(FromBigEndian(s), |s|) == s
  {
    if s != [] {
      FromBigEndianRoundTrip(s[..|s| - 1]);
    }
  }

  lemma {:induction false} LittleEndianRoundTrip(n: nat, width: nat)
    requires n < Pow256(width)
    ensures FromLittleEndian(LittleEndian(n, width)) == n
  {
    if width > 0 {
      LittleEndianRoundTrip(n / 256, width - 1);
      assert LittleEndian(n, width)[1..] == LittleEndian(n / 256, width - 1);
    }
  }

  lemma {:induction false} FromLittleEndianRoundTrip(s: seq<byte>)
    ensures FromLittleEndian(s) < Pow256(|s|)
    ensures LittleEndian(FromLittleEndian(s), |s|) == s
  {
    if s != [] {
      var low, high := s[0], FromLittleEndian(s[1..]);
      FromLittleEndianRoundTrip(s[1..]);
      assert (low + 256 * high) / 256 == high && (low + 256 * high) % 256 == low;
    }
  }

  /** Smaller numbers come first in the bytewise order of their big-endian spellings. */
  predicate LexLess(a: seq<byte>, b: seq<byte>) {
    if b == [] then false
    else if a == [] then true
    else a[0] < b[0] || (a[0] == b[0] && LexLess(a[1..], b[1..]))
  }

  lemma {:induction false} LexLessSnoc(a: seq<byte>, b: seq<byte>, x: byte, y: byte)
    requires |a| == |b|
    ensures LexLess(a + [x], b + [y]) <==> LexLess(a, b) || (a == b && x < y)
  {
    if a == [] {
      assert a + [x] == [x] && b + [y] == [y];
      assert [x][1..] == [] && [y][1..] == [];
    } else {
      assert (a + [x])[1..] == a[1..] + [x] && (b + [y])[1..] == b[1..] + [y];
      LexLessSnoc(a[1..], b[1..], x, y);
      assert a == [a[0]] + a[1..] && b == [b[0]] + b[1..];
    }
  }

  lemma {:induction false} BigEndianOrder(m: nat, n: nat, width: nat)
    requires m < Pow256(width) && n < Pow256(width)
    ensures LexLess(BigEndian(m, width), BigEndian(n, width)) <==> m < n
  {
    if width > 0 {
      BigEndianOrder(m / 256, n / 256, width - 1);
      LexLessSnoc(BigEndian(m / 256, width - 1), BigEndian(n / 256, width - 1), m % 256, n % 256);
      BigEndianRoundTrip(m / 256, width - 1);
      BigEndianRoundTrip(n / 256, width - 1);
    }
  }

  predicate StrictlyIncreasing(ks: seq<nat>) {
    forall i, j :: 0 <= i < j < |ks| ==> ks[i] < ks[j]
  }

  predicate IsMinimum(m: nat, s: set<nat>) {
    m in s && forall k: nat :: k in s ==> m <= k
  }

  lemma {:induction false} MinimumExists(s: set<nat>)
    requires s != {}
    ensures exists m: nat :: IsMinimum(m, s)
  {
    assert |s| > 0;
    var x: nat :| x in s;
    var rest := s - {x};
    assert forall k: nat :: k in s ==> k == x || k in rest;
    if rest == {} {
      assert IsMinimum(x, s);
    } else {
      MinimumExists(rest);
      var m :| IsMinimum(m, rest);
      assert IsMinimum(if x < m then x else m, s);
    }
  }

  function Minimum(s: set<nat>): (m: nat)
    requires s != {}
    ensures IsMinimum(m, s)
  {
    MinimumExists(s);
    var m: nat :| m in s && IsMinimum(m, s);
    m
  }

  /** The keys of a finite set of natural numbers in increasing order, as `sorted` lists them. */
  function SortedKeys(s: set<nat>): (ks: seq<nat>)
    ensures |ks| == |s|
  {
    if s == {} then [] else [Minimum(s)] + SortedKeys(s - {Minimum(s)})
  }

  lemma {:induction false} SortedKeysMembers(s: set<nat>)
    ensures forall k: nat :: k in SortedKeys(s) <==> k in s
  {
    if s != {} {
      SortedKeysMembers(s - {Minimum(s)});
    }
  }

  lemma {:induction false} SortedKeysIncreasing(s: set<nat>)
    ensures StrictlyIncreasing(SortedKeys(s))
  {
    if s != {} {
      var rest := s - {Minimum(s)};
      SortedKeysIncreasing(rest);
      SortedKeysMembers(rest);
      var ks := SortedKeys(rest);
      forall j | 0 <= j < |ks| ensures Minimum(s) < ks[j] {
        assert ks[j] in ks;
      }
    }
  }

  /** A strictly increasing listing is the sorted listing. */
  lemma {:induction false} SortedKeysUnique(s: set<nat>, ks: seq<nat>)
    requires StrictlyIncreasing(ks)
    requires forall k: nat :: k in ks <==> k in s
    ensures SortedKeys(s) == ks
  {
    if s == {} {
      FirstListed(ks);
    } else {
      hide SortedKeys;
      SortedHead(s, ks);
      SortedTail(s, ks);
      SortedKeysUnique(s - {Minimum(s)}, ks[1..]);
      SortedKeysStep(s);
    }
  }

  lemma FirstListed(ks: seq<nat>)
    ensures ks == [] || ks[0] in ks
  {
  }

  lemma SortedKeysStep(s: set<nat>)
    requires s != {}
    ensures SortedKeys(s) == [Minimum(s)] + SortedKeys(s - {Minimum(s)})
  {
  }

  lemma SortedHead(s: set<nat>, ks: seq<nat>)
    requires s != {} && StrictlyIncreasing(ks)
    requires forall k: nat :: k in ks <==> k in s
    ensures ks != [] && ks[0] == Minimum(s)
  {
    var m := Minimum(s);
    assert m in ks;
    var i :| 0 <= i < |ks| && ks[i] == m;
    assert ks[0] in ks;
  }

  lemma SortedTail(s: set<nat>, ks: seq<nat>)
    requires ks != [] && StrictlyIncreasing(ks)
    requires forall k: nat :: k in ks <==> k in s
    ensures StrictlyIncreasing(ks[1..])
    ensures forall k: nat :: k in ks[1..] <==> k in s - {ks[0]}
  {
    forall k: nat ensures k in ks[1..] <==> k in s - {ks[0]} {
      if k in ks[1..] {
        var i :| 0 <= i < |ks[1..]| && ks[1..][i] == k;
        assert ks[i + 1] == k && k in ks;
      }
      if k in s - {ks[0]} {
        assert k in ks;
        var i :| 0 <= i < |ks| && ks[i] == k;
        assert ks[1..][i - 1] == k;
      }
    }
  }
}
