/** Signals inside a CAN payload, after `validateFrame`, `descriptor` and `decode` in
 *  ui/diagnostic-web/prototype.js: the walk over the bits of a signal in Intel or Motorola order, the
 *  number they spell, its sign and its scaled value. */
module CanBits {
  import opened Prelude
  import Decimal

  datatype Order = Intel | Motorola

  // ---------------------------------------------------------------- shifting

  function Pow2(k: nat): (p: nat)
    ensures p > 0
  {
    if k == 0 then 1 else 2 * Pow2(k - 1)
  }

  /** `n >> k` */
  function Shift(n: nat, k: nat): nat {
    if k == 0 then n else Shift(n / 2, k - 1)
  }

  /** The low `k` bits of `n`. */
  function Low(n: nat, k: nat): nat {
    if k == 0 then 0 else n % 2 + 2 * Low(n / 2, k - 1)
  }

  function Bit(n: nat, k: nat): (b: nat)
    ensures b < 2
  {
    Shift(n, k) % 2
  }

  lemma {:induction false} ShiftAdd(n: nat, a: nat, b: nat)
    ensures Shift(Shift(n, a), b) == Shift(n, a + b)
  {
    if a > 0 {
      ShiftAdd(n / 2, a - 1, b);
    }
  }

  lemma ShiftMore(n: nat, k: nat)
    ensures Shift(n, k + 1) == Shift(n, k) / 2
  {
    ShiftAdd(n, k, 1);
    assert Shift(Shift(n, k), 1) == Shift(Shift(n, k) / 2, 0);
  }

  lemma Quotient(n: nat, d: nat, q: nat, r: nat)
    requires r < d && n == d * q + r
    ensures n / d == q && n % d == r
  {
    var x := n / d - q;
    assert d * x == r - n % d by {
      assert n == d * (n / d) + n % d;
      assert d * (n / d) == d * q + d * x;
    }
    Multiple(d, x);
  }

  lemma Multiple(d: int, x: int)
    requires d > 0
    ensures (x > 0 ==> d * x >= d) && (x < 0 ==> d * x + d <= 0)
  {
    if x > 0 {
      assert d * x == d * (x - 1) + d;
    }
    if x < 0 {
      assert d * x + d == -(d * (-x - 1));
    }
  }

  /** Shifting and masking are division and remainder by powers of two. */
  lemma {:induction false} ShiftMask(n: nat, k: nat)
    ensures Shift(n, k) == n / Pow2(k) && Low(n, k) == n % Pow2(k)
  {
    if k > 0 {
      ShiftMask(n / 2, k - 1);
      HalvedQuotient(n, Pow2(k - 1));
    }
  }

  lemma HalvedQuotient(n: nat, p: nat)
    requires p > 0
    ensures n / (2 * p) == n / 2 / p && n % (2 * p) == n % 2 + 2 * (n / 2 % p)
  {
    var q, r := n / 2 / p, n / 2 % p;
    assert n / 2 == p * q + r;
    assert 2 * (p * q) == 2 * p * q;
    Quotient(n, 2 * p, q, n % 2 + 2 * r);
  }

  lemma {:induction false} LowMore(n: nat, k: nat)
    ensures Low(n, k + 1) == Low(n, k) + Pow2(k) * Bit(n, k)
  {
    if k == 0 {
      assert Low(n / 2, 0) == 0;
    } else {
      LowMore(n / 2, k - 1);
      var b := Bit(n, k);
      assert Bit(n / 2, k - 1) == b;
      assert 2 * (Pow2(k - 1) * b) == Pow2(k) * b;
    }
  }

  lemma {:induction false} ShiftSum(x: nat, y: nat, k: nat)
    ensures Shift(x + Pow2(k) * y, k) == Shift(x, k) + y
  {
    if k == 0 {
      assert Pow2(0) * y == y;
    } else {
      var p := Pow2(k - 1);
      ShiftSum(x / 2, y, k - 1);
      PowStep(k);
      ShiftStep(x, k);
      ShiftStep(x + Pow2(k) * y, k);
      hide Pow2, Shift;
      Regroup(2, p, y);
      HalfSum(x, p * y);
    }
  }

  lemma ShiftStep(n: nat, k: nat)
    requires k > 0
    ensures Shift(n, k) == Shift(n / 2, k - 1)
  {
  }

  lemma HalfSum(x: nat, z: nat)
    ensures (x + 2 * z) / 2 == x / 2 + z
  {
  }

  lemma {:induction false} ShiftOut(x: nat, k: nat)
    requires x < Pow2(k)
    ensures Shift(x, k) == 0
  {
    if k > 0 {
      ShiftOut(x / 2, k - 1);
    }
  }

  lemma {:induction false} Pow2Add(a: nat, b: nat)
    ensures Pow2(a + b) == Pow2(a) * Pow2(b)
  {
    if a > 0 {
      Pow2Add(a - 1, b);
      PowStep(a);
      PowStep(a + b);
      hide Pow2;
      Regroup(2, Pow2(a - 1), Pow2(b));
    } else {
      assert Pow2(0) * Pow2(b) == Pow2(b);
    }
  }

  lemma Regroup(a: nat, b: nat, c: nat)
    ensures a * (b * c) == a * b * c
  {
  }

  lemma PowStep(k: nat)
    requires k > 0
    ensures Pow2(k) == 2 * Pow2(k - 1)
  {
  }

  // ---------------------------------------------------------------- bits of a payload

  /** `(data[bit >> 3] >> (bit % 8)) & 1` */
  function Digit(data: seq<byte>, bit: nat): (d: nat)
    requires bit < 8 * |data|
    ensures d < 2
  {
    Bit(data[bit / 8], bit % 8)
  }

  /** A bit of the payload is the bit of the little-endian number. */
  lemma {:induction false} LittleEndianBit(data: seq<byte>, bit: nat)
    requires bit < 8 * |data|
    ensures Digit(data, bit) == Bit(FromLittleEndian(data), bit)
  {
    var low: nat, rest := data[0], FromLittleEndian(data[1..]);
    if bit < 8 {
      LowByte(low, rest, bit);
    } else {
      HighBytes(low, rest, bit);
      LittleEndianBit(data[1..], bit - 8);
      hide Bit, FromLittleEndian;
      assert (bit - 8) / 8 == bit / 8 - 1 && (bit - 8) % 8 == bit % 8;
      assert FromLittleEndian(data) == low + 256 * rest by {
        LittleEndianHead(data);
      }
    }
  }

  lemma LittleEndianHead(data: seq<byte>)
    requires data != []
    ensures FromLittleEndian(data) == data[0] + 256 * FromLittleEndian(data[1..])
  {
  }

  lemma LowByte(low: nat, rest: nat, bit: nat)
    requires low < 256 && bit < 8
    ensures Bit(low + 256 * rest, bit) == Bit(low, bit)
  {
    var z := EvenRest(rest, bit);
    ShiftSum(low, 2 * z, bit);
    hide Shift, Pow2;
    assert (Shift(low, bit) + 2 * z) % 2 == Shift(low, bit) % 2;
  }

  lemma EvenRest(rest: nat, bit: nat) returns (z: nat)
    requires bit < 8
    ensures Pow2(bit) * (2 * z) == 256 * rest
  {
    Pow2Of8();
    Pow2Add(bit, 8 - bit);
    PowStep(8 - bit);
    z := Pow2(7 - bit) * rest;
    hide Pow2;
    Regroup(2, Pow2(7 - bit), rest);
    Regroup(Pow2(bit), 2 * Pow2(7 - bit), rest);
  }

  lemma Pow2Of8()
    ensures Pow2(8) == 256
  {
    assert Pow2(4) == 16;
  }

  lemma HighBytes(low: nat, rest: nat, bit: nat)
    requires low < 256 && bit >= 8
    ensures Bit(low + 256 * rest, bit) == Bit(rest, bit - 8)
  {
    Pow2Of8();
    ShiftSum(low, rest, 8);
    ShiftOut(low, 8);
    ShiftAdd(low + 256 * rest, 8, bit - 8);
    hide Shift, Pow2;
  }

  function Reversed(data: seq<byte>): (r: seq<byte>)
    ensures |r| == |data| && forall i :: 0 <= i < |data| ==> r[i] == data[|data| - 1 - i]
  {
    if data == [] then [] else [data[|data| - 1]] + Reversed(data[..|data| - 1])
  }

  lemma {:induction false} BigEndianReversed(data: seq<byte>)
    ensures FromBigEndian(data) == FromLittleEndian(Reversed(data))
  {
    if data != [] {
      BigEndianReversed(data[..|data| - 1]);
      assert Reversed(data)[1..] == Reversed(data[..|data| - 1]);
    }
  }

  // ---------------------------------------------------------------- the walk

  function Next(order: Order, bit: nat): nat {
    if order.Intel? then bit + 1 else if bit % 8 == 0 then bit + 15 else bit - 1
  }

  /** Where a bit stands on the line that its order reads along. */
  function Rank(order: Order, bit: nat): nat {
    if order.Intel? then bit else bit / 8 * 8 + 7 - bit % 8
  }

  lemma NextRank(order: Order, bit: nat)
    ensures Rank(order, Next(order, bit)) == Rank(order, bit) + 1
  {
  }

  /** Ranks tell bits apart, and stay inside a whole number of bytes. */
  lemma RankFaithful(order: Order, a: nat, b: nat, bytes: nat)
    ensures Rank(order, a) == Rank(order, b) <==> a == b
    ensures Rank(order, a) < 8 * bytes <==> a < 8 * bytes
  {
  }

  /** The bits of a signal, or None when one falls outside `size`. */
  function Walk(order: Order, bit: nat, length: nat, size: nat): Option<seq<nat>>
    decreases length
  {
    if length == 0 then Some([])
    else if bit >= size then None
    else
      var rest := Walk(order, Next(order, bit), length - 1, size);
      if rest.None? then None else Some([bit] + rest.value)
  }

  method WalkBits(order: Order, start: nat, length: nat, size: nat) returns (bits: Option<seq<nat>>)
    ensures bits == Walk(order, start, length, size)
  {
    var done: seq<nat> := [];
    var bit: nat := start;
    AfterDone([], 0, Walk(order, start, length, size));
    for i := 0 to length
      invariant Walk(order, start, length, size) == After(done, Walk(order, bit, length - i, size))
    {
      hide Next;
      if bit >= size {
        return None;
      }
      AfterDone(done, bit, Walk(order, Next(order, bit), length - i - 1, size));
      done := done + [bit];
      bit := Next(order, bit);
    }
    assert done + [] == done;
    bits := Some(done);
  }

  ghost function After(done: seq<nat>, rest: Option<seq<nat>>): Option<seq<nat>> {
    if rest.None? then None else Some(done + rest.value)
  }

  lemma AfterDone(done: seq<nat>, bit: nat, rest: Option<seq<nat>>)
    ensures After([], rest) == rest
    ensures After(done, After([bit], rest)) == After(done + [bit], rest)
  {
    if rest.Some? {
      assert [] + rest.value == rest.value;
      assert done + ([bit] + rest.value) == done + [bit] + rest.value;
    }
  }

  /** Consecutive ranks from that of `start`. */
  ghost predicate Consecutive(order: Order, start: nat, bits: seq<nat>) {
    forall k :: 0 <= k < |bits| ==> Rank(order, bits[k]) == Rank(order, start) + k
  }

  /** A descriptor is accepted exactly when its last bit is still inside the payload; then its bits are
      pairwise distinct, inside, and consecutive along the line of its order. */
  lemma {:induction false} WalkMeaning(order: Order, start: nat, length: nat, bytes: nat)
    ensures Walk(order, start, length, 8 * bytes).Some? <==> length == 0 || Rank(order, start) + length <= 8 * bytes
    ensures var bits := Walk(order, start, length, 8 * bytes);
            bits.Some? ==>
              && |bits.value| == length
              && Consecutive(order, start, bits.value)
              && (forall k :: 0 <= k < length ==> bits.value[k] < 8 * bytes)
              && forall j, k :: 0 <= j < k < length ==> bits.value[j] != bits.value[k]
    decreases length
  {
    if length > 0 {
      RankFaithful(order, start, start, bytes);
      NextRank(order, start);
      hide Rank;
      WalkMeaning(order, Next(order, start), length - 1, bytes);
      hide Next;
      var bits := Walk(order, start, length, 8 * bytes);
      if bits.Some? {
        var rest := Walk(order, Next(order, start), length - 1, 8 * bytes).value;
        assert bits.value == [start] + rest;
        forall k | 0 <= k < length ensures Rank(order, bits.value[k]) == Rank(order, start) + k {
          assert k > 0 ==> bits.value[k] == rest[k - 1];
        }
        forall j, k | 0 <= j < k < length ensures bits.value[j] != bits.value[k] {
          assert Rank(order, bits.value[j]) != Rank(order, bits.value[k]);
        }
      }
    }
  }

  // ---------------------------------------------------------------- the number the bits spell

  predicate Inside(data: seq<byte>, bits: seq<nat>) {
    forall k :: 0 <= k < |bits| ==> bits[k] < 8 * |data|
  }

  /** `n << k` */
  function Left(n: nat, k: nat): nat {
    if k == 0 then n else 2 * Left(n, k - 1)
  }

  lemma {:induction false} LeftPower(n: nat, k: nat)
    ensures Left(n, k) == Pow2(k) * n
  {
    if k > 0 {
      LeftPower(n, k - 1);
      PowStep(k);
      Regroup(2, Pow2(k - 1), n);
    }
  }

  /** `a | b` */
  function Or(a: nat, b: nat): nat {
    if a == 0 && b == 0 then 0
    else (if a % 2 == 1 || b % 2 == 1 then 1 else 0) + 2 * Or(a / 2, b / 2)
  }

  lemma {:induction false} OrNothing(a: nat)
    ensures Or(0, a) == a && Or(a, 0) == a
  {
    if a > 0 {
      OrNothing(a / 2);
    }
  }

  /** A number that stays below bit `k` has no bit in common with one shifted left by `k`. */
  lemma {:induction false} OrAbove(a: nat, k: nat, b: nat)
    requires a < Pow2(k)
    ensures Or(a, Left(b, k)) == a + Left(b, k)
  {
    if k == 0 {
      OrNothing(b);
    } else {
      OrAbove(a / 2, k - 1, b);
      OrDigit(a, Left(b, k - 1));
      hide Or;
    }
  }

  lemma OrDigit(a: nat, b: nat)
    ensures Or(a, 2 * b) == a % 2 + 2 * Or(a / 2, b)
  {
  }

  lemma OrBelow(a: nat, digit: nat)
    requires digit < 2
    ensures Or(Left(a, 1), digit) == 2 * a + digit
  {
    OrNothing(a);
    assert Left(a, 1) == 2 * Left(a, 0) && 2 * a / 2 == a && digit / 2 == 0;
  }

  /** The digits collected in order: each Intel digit above the earlier ones, each Motorola digit below. */
  function Gather(order: Order, data: seq<byte>, bits: seq<nat>): nat
    requires Inside(data, bits)
  {
    if bits == [] then 0
    else
      var n := |bits| - 1;
      var raw, digit := Gather(order, data, bits[..n]), Digit(data, bits[n]);
      if order.Intel? then Or(raw, Left(digit, n)) else Or(Left(raw, 1), digit)
  }

  method GatherBits(order: Order, data: seq<byte>, bits: seq<nat>) returns (raw: nat)
    requires Inside(data, bits)
    ensures raw == Gather(order, data, bits)
  {
    raw := 0;
    for index := 0 to |bits|
      invariant raw == Gather(order, data, bits[..index])
    {
      hide Digit;
      var digit := Digit(data, bits[index]);
      assert bits[..index + 1][..index] == bits[..index];
      if order.Intel? {
        raw := Or(raw, Left(digit, index));
      } else {
        raw := Or(Left(raw, 1), digit);
      }
    }
    assert bits[..|bits|] == bits;
  }

  /** No digit meets another: the number stays below `2^length`, and each `|` is a sum. */
  lemma {:induction false} GatherSum(order: Order, data: seq<byte>, bits: seq<nat>)
    requires Inside(data, bits)
    ensures Gather(order, data, bits) < Pow2(|bits|)
    ensures bits != [] ==>
              var n := |bits| - 1;
              var raw, digit := Gather(order, data, bits[..n]), Digit(data, bits[n]);
              Gather(order, data, bits) == if order.Intel? then raw + Pow2(n) * digit else 2 * raw + digit
    decreases |bits|
  {
    hide Digit, Or;
    if bits != [] {
      var n := |bits| - 1;
      var raw, digit := Gather(order, data, bits[..n]), Digit(data, bits[n]);
      GatherSum(order, data, bits[..n]);
      OrAbove(raw, n, digit);
      OrBelow(raw, digit);
      LeftPower(digit, n);
      PowStep(n + 1);
      assert Pow2(n) * digit == if digit == 0 then 0 else Pow2(n);
      hide Pow2, Left;
    }
  }

  lemma ConsecutiveInit(order: Order, start: nat, bits: seq<nat>)
    requires bits != [] && Consecutive(order, start, bits)
    ensures Consecutive(order, start, bits[..|bits| - 1])
    ensures Rank(order, bits[|bits| - 1]) == Rank(order, start) + |bits| - 1
  {
    hide Rank;
  }

  /** The Intel walk reads `(n >> start) mod 2^length` from the little-endian number. */
  lemma {:induction false} GatherIntel(data: seq<byte>, start: nat, bits: seq<nat>)
    requires Inside(data, bits) && Consecutive(Intel, start, bits)
    ensures Gather(Intel, data, bits) == Low(Shift(FromLittleEndian(data), start), |bits|)
  {
    if bits != [] {
      var n, k := FromLittleEndian(data), |bits| - 1;
      ConsecutiveInit(Intel, start, bits);
      GatherSum(Intel, data, bits);
      GatherIntel(data, start, bits[..k]);
      LittleEndianBit(data, bits[k]);
      LowMore(Shift(n, start), k);
      ShiftAdd(n, start, k);
      assert bits[k] == start + k;
      hide FromLittleEndian, Low, Shift, Digit, Gather;
    }
  }

  lemma FromTop(bytes: nat, bit: nat)
    requires bit < 8 * bytes
    ensures var e := 8 * bytes - 1 - Rank(Motorola, bit); 0 <= e && e / 8 == bytes - 1 - bit / 8 && e % 8 == bit % 8
  {
  }

  /** A bit of the payload is the bit of the big-endian number counted from its top. */
  lemma BigEndianBit(data: seq<byte>, bit: nat)
    requires bit < 8 * |data|
    ensures Rank(Motorola, bit) < 8 * |data|
    ensures Digit(data, bit) == Bit(FromBigEndian(data), 8 * |data| - 1 - Rank(Motorola, bit))
  {
    RankFaithful(Motorola, bit, bit, |data|);
    BigEndianReversed(data);
    var e := 8 * |data| - 1 - Rank(Motorola, bit);
    FromTop(|data|, bit);
    LittleEndianBit(Reversed(data), e);
    hide FromBigEndian, FromLittleEndian, Bit, Rank;
  }

  /** The Motorola walk reads the same shift and mask from the big-endian number. */
  lemma {:induction false} GatherMotorola(data: seq<byte>, start: nat, bits: seq<nat>)
    requires Inside(data, bits) && Consecutive(Motorola, start, bits)
    requires Rank(Motorola, start) + |bits| <= 8 * |data|
    ensures Gather(Motorola, data, bits)
         == Low(Shift(FromBigEndian(data), 8 * |data| - Rank(Motorola, start) - |bits|), |bits|)
  {
    if bits != [] {
      var n, k := FromBigEndian(data), |bits| - 1;
      ConsecutiveInit(Motorola, start, bits);
      GatherSum(Motorola, data, bits);
      GatherMotorola(data, start, bits[..k]);
      BigEndianBit(data, bits[k]);
      ShiftMore(n, 8 * |data| - Rank(Motorola, start) - |bits|);
      hide FromBigEndian, Shift, Digit, Rank;
    }
  }

  // ---------------------------------------------------------------- sign

  /** `raw - 2^length` when the top bit is set. */
  function Signed(raw: nat, length: nat): int
    requires length > 0
  {
    if Bit(raw, length - 1) == 1 then raw - Pow2(length) else raw
  }

  /** The two's complement value: the only number of the signed range that agrees with `raw` modulo
      `2^length`. */
  lemma SignedMeaning(raw: nat, length: nat, x: int)
    requires length > 0 && raw < Pow2(length)
    ensures x == Signed(raw, length) <==>
              && 0 <= x + Pow2(length - 1) && x < Pow2(length - 1)
              && (x - raw) % Pow2(length) == 0
  {
    PowStep(length);
    TopBit(raw, length);
    hide Bit, Pow2;
    OnlyResidue(raw, Pow2(length - 1), x);
  }

  lemma TopBit(raw: nat, length: nat)
    requires length > 0 && raw < Pow2(length)
    ensures Bit(raw, length - 1) == if raw < Pow2(length - 1) then 0 else 1
  {
    var p := Pow2(length - 1);
    PowStep(length);
    ShiftMask(raw, length - 1);
    if raw < p {
      Quotient(raw, p, 0, raw);
    } else {
      Quotient(raw, p, 1, raw - p);
    }
    hide Shift, Pow2;
  }

  lemma OnlyResidue(raw: int, p: int, x: int)
    requires 0 <= raw < 2 * p
    ensures x == (if raw < p then raw else raw - 2 * p) <==> 0 <= x + p && x < p && (x - raw) % (2 * p) == 0
  {
    if 0 <= x + p && x < p {
      OnlyMultiple(x - raw, 2 * p);
    }
  }

  lemma OnlyMultiple(d: int, m: int)
    requires m > 0 && -2 * m < d < 2 * m
    ensures d % m == 0 <==> d == 0 || d == m || d + m == 0
  {
    var q := d / m;
    assert d == m * q + d % m;
    Multiple(m, q - 1);
    Multiple(m, q + 1);
    Multiple(m, q);
    assert m * (q - 1) == m * q - m && m * (q + 1) == m * q + m;
  }

  // ---------------------------------------------------------------- descriptor and decode

  datatype Frame = Frame(bus: int, extended: bool, id: int, dlc: int, data: seq<byte>)

  predicate ValidFrame(f: Frame) {
    && 1 <= f.bus <= 3
    && 0 <= f.id <= (if f.extended then 0x1FFFFFFF else 0x7FF)
    && 1 <= f.dlc <= 8
    && |f.data| == f.dlc
  }

  /** The entries of the form; `start` and `length` are absent when empty or not an integer. */
  datatype Form = Form(start: Option<int>, length: Option<int>, order: string, sign: string, factor: string,
                       offset: string, unit: string)

  datatype Config = Config(order: Order, length: nat, signed: bool, bits: seq<nat>, factorMicros: int, offsetMicros: int)

  predicate ChoicesOk(form: Form) {
    && form.start.Some? && 0 <= form.start.value <= 63
    && form.length.Some? && 1 <= form.length.value <= 64
    && (form.order == "INTEL" || form.order == "MOTOROLA")
    && (form.sign == "unsigned" || form.sign == "signed")
  }

  function OrderOf(form: Form): Order {
    if form.order == "INTEL" then Intel else Motorola
  }

  /** A bool is one unsigned bit, neither scaled nor shifted. */
  predicate ScaleOk(form: Form, units: set<string>) {
    var factor, offset := Decimal.Parse(form.factor), Decimal.Parse(form.offset);
    && factor.Some? && offset.Some? && factor.value != 0
    && form.unit in units
    && (form.unit == "bool" ==>
          form.length == Some(1) && form.sign == "unsigned" && factor.value == Decimal.MILLION && offset.value == 0)
  }

  /** The last bit is still inside the payload. */
  predicate Fitting(f: Frame, form: Form)
    requires ChoicesOk(form)
  {
    Rank(OrderOf(form), form.start.value) + form.length.value <= 8 * |f.data|
  }

  method Descriptor(f: Frame, form: Form, units: set<string>) returns (r: Option<Config>)
    ensures r.Some? <==> ValidFrame(f) && ChoicesOk(form) && Fitting(f, form) && ScaleOk(form, units)
    ensures r.Some? ==>
              && r.value.order == OrderOf(form) && r.value.length == form.length.value
              && r.value.signed == (form.sign == "signed")
              && |r.value.bits| == form.length.value && Inside(f.data, r.value.bits)
              && Consecutive(OrderOf(form), form.start.value, r.value.bits)
              && Decimal.Parse(form.factor) == Some(r.value.factorMicros)
              && Decimal.Parse(form.offset) == Some(r.value.offsetMicros)
  {
    hide Rank, Consecutive, Walk, Decimal.Parse;
    if !ValidFrame(f) || !ChoicesOk(form) {
      return None;
    }
    var order := OrderOf(form);
    WalkMeaning(order, form.start.value, form.length.value, |f.data|);
    var bits := WalkBits(order, form.start.value, form.length.value, 8 * f.dlc);
    if bits.None? {
      return None;
    }
    var factor, offset := Decimal.Parse(form.factor), Decimal.Parse(form.offset);
    if factor.None? || offset.None? || factor.value == 0 || form.unit !in units {
      return None;
    }
    var signed := form.sign == "signed";
    if form.unit == "bool"
       && (form.length.value != 1 || signed || factor.value != Decimal.MILLION || offset.value != 0) {
      return None;
    }
    r := Some(Config(order, form.length.value, signed, bits.value, factor.value, offset.value));
  }

  method Decode(data: seq<byte>, config: Config) returns (raw: int, value: string)
    requires Inside(data, config.bits) && config.length > 0
    ensures raw == (var n := Gather(config.order, data, config.bits); if config.signed then Signed(n, config.length) else n)
    ensures value == Decimal.Print(raw * config.factorMicros + config.offsetMicros)
  {
    var n := GatherBits(config.order, data, config.bits);
    raw := n;
    if config.signed && Bit(n, config.length - 1) == 1 {
      raw := n - Pow2(config.length);
    }
    var physical := raw * config.factorMicros + config.offsetMicros;
    var absolute := Decimal.Absolute(physical);
    var fraction := Decimal.TrimZeros(Decimal.PadStart(Decimal.ToDigits(absolute % Decimal.MILLION), 6));
    value := (if physical < 0 then "-" else "") + Decimal.ToDigits(absolute / Decimal.MILLION)
             + if fraction == "" then "" else "." + fraction;
  }

  /** The number that a payload carries as a whole, in the byte order of the signal. */
  function Whole(order: Order, data: seq<byte>): nat {
    if order.Intel? then FromLittleEndian(data) else FromBigEndian(data)
  }

  /** How far the signal lies above the bottom of that number. */
  function Below(order: Order, data: seq<byte>, start: nat, length: nat): int {
    if order.Intel? then start else 8 * |data| - Rank(Motorola, start) - length
  }

  /** The bits of an accepted descriptor spell the payload's number, shifted and masked. */
  lemma GatherMeaning(f: Frame, form: Form, bits: seq<nat>)
    requires ChoicesOk(form) && Fitting(f, form)
    requires |bits| == form.length.value && Inside(f.data, bits) && Consecutive(OrderOf(form), form.start.value, bits)
    ensures var order, start, length := OrderOf(form), form.start.value, form.length.value;
            var below := Below(order, f.data, start, length);
            && below >= 0
            && Gather(order, f.data, bits) == Whole(order, f.data) / Pow2(below) % Pow2(length) < Pow2(length)
  {
    var order, start, length := OrderOf(form), form.start.value, form.length.value;
    var below: nat := Below(order, f.data, start, length);
    if order.Intel? {
      GatherIntel(f.data, start, bits);
    } else {
      GatherMotorola(f.data, start, bits);
    }
    ShiftMask(Whole(order, f.data), below);
    ShiftMask(Shift(Whole(order, f.data), below), length);
    hide Low, Shift, Pow2, FromLittleEndian, FromBigEndian, Gather;
  }

  /** What the page shows for an accepted descriptor: the two's complement or plain value of the bits,
      and a decimal that denotes `raw * factor + offset` exactly. */
  method Show(f: Frame, form: Form, units: set<string>) returns (r: Option<(int, string)>)
    ensures r.Some? <==> ValidFrame(f) && ChoicesOk(form) && Fitting(f, form) && ScaleOk(form, units)
    ensures r.Some? ==>
              var order, start, length := OrderOf(form), form.start.value, form.length.value;
              var below := Below(order, f.data, start, length);
              && below >= 0
              && var n := Whole(order, f.data) / Pow2(below) % Pow2(length);
                 var factor, offset := Decimal.Parse(form.factor).value, Decimal.Parse(form.offset).value;
                 && r.value.0 == (if form.sign == "signed" then Signed(n, length) else n)
                 && Decimal.Read(r.value.1) == Some(r.value.0 * factor + offset)
  {
    hide Rank, Walk, Gather, Consecutive, Decimal.Parse, Decimal.Read, Decimal.Print, Pow2, Signed, Whole, Below, Inside;
    var config := Descriptor(f, form, units);
    if config.None? {
      return None;
    }
    var raw, value := Decode(f.data, config.value);
    GatherMeaning(f, form, config.value.bits);
    Decimal.PrintReads(raw * config.value.factorMicros + config.value.offsetMicros);
    r := Some((raw, value));
  }

  /** Which descriptors are accepted, with every limit. */
  lemma DescriptorMeaning(f: Frame, form: Form, units: set<string>)
    ensures (ValidFrame(f) && ChoicesOk(form) && Fitting(f, form) && ScaleOk(form, units)) <==>
              && (f.bus == 1 || f.bus == 2 || f.bus == 3)
              && 0 <= f.id < (if f.extended then 0x2000_0000 else 0x800)
              && 1 <= |f.data| == f.dlc <= 8
              && form.start.Some? && 0 <= form.start.value < 64
              && form.length.Some? && 1 <= form.length.value <= 64
              && (form.order == "INTEL" || form.order == "MOTOROLA")
              && (form.order == "INTEL" ==> form.start.value + form.length.value <= 8 * |f.data|)
              && (form.order == "MOTOROLA" ==>
                    form.start.value / 8 * 8 + (7 - form.start.value % 8) + form.length.value <= 8 * |f.data|)
              && (form.sign == "unsigned" || form.sign == "signed")
              && Decimal.Parse(form.factor).Some? && Decimal.Parse(form.factor) != Some(0)
              && Decimal.Parse(form.offset).Some?
              && form.unit in units
              && (form.unit == "bool" ==>
                    && form.length == Some(1) && form.sign == "unsigned"
                    && Decimal.Parse(form.factor) == Some(1_000_000) && Decimal.Parse(form.offset) == Some(0))
  {
    hide Decimal.Parse;
  }

  lemma OrderMeaning(form: Form)
    requires ChoicesOk(form)
    ensures (OrderOf(form).Intel? <==> form.order == "INTEL") && (OrderOf(form).Motorola? <==> form.order == "MOTOROLA")
  {
  }
}
