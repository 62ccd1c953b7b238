/** Exact decimals with six places, after `decimal` and the last lines of `decode` in
 *  ui/diagnostic-web/prototype.js. Amounts are integers of millionths. */
module Decimal {
  import opened Prelude

  const MILLION: nat := 1_000_000

  predicate IsDigit(c: char) {
    '0' <= c <= '9'
  }

  predicate AllDigits(s: string) {
    forall i :: 0 <= i < |s| ==> IsDigit(s[i])
  }

  function DigitChar(d: nat): (c: char)
    requires d < 10
    ensures IsDigit(c) && DigitValue(c) == d
  {
    '0' + d as char
  }

  function DigitValue(c: char): (d: nat)
    requires IsDigit(c)
    ensures d < 10
  {
    c as int - '0' as int
  }

  /** `BigInt(s)` for a string of digits. */
  function FromDigits(s: string): nat
    requires AllDigits(s)
  {
    if s == [] then 0 else FromDigits(s[..|s| - 1]) * 10 + DigitValue(s[|s| - 1])
  }

  /** `n.toString()` */
  function ToDigits(n: nat): (s: string)
    ensures AllDigits(s) && s != []
  {
    if n < 10 then [DigitChar(n)] else ToDigits(n / 10) + [DigitChar(n % 10)]
  }

  lemma {:induction false} DigitsRoundTrip(n: nat)
    ensures FromDigits(ToDigits(n)) == n
  {
    if n >= 10 {
      DigitsRoundTrip(n / 10);
      assert ToDigits(n)[..|ToDigits(n)| - 1] == ToDigits(n / 10);
    }
  }

  function Pow10(k: nat): (p: nat)
    ensures p > 0
  {
    if k == 0 then 1 else 10 * Pow10(k - 1)
  }

  lemma {:induction false} DigitsFit(n: nat, k: nat)
    requires k > 0
    ensures |ToDigits(n)| <= k <==> n < Pow10(k)
  {
    if n >= 10 && k > 1 {
      DigitsFit(n / 10, k - 1);
    } else if n >= 10 {
      assert Pow10(1) == 10 * Pow10(0) && |ToDigits(n)| == |ToDigits(n / 10)| + 1;
    } else {
      assert Pow10(k) == 10 * Pow10(k - 1);
    }
  }

  function Fill(n: nat): (s: string)
    ensures |s| == n && AllDigits(s) && forall i :: 0 <= i < n ==> s[i] == '0'
  {
    seq(n, _ => '0')
  }

  /** `s.padStart(n, "0")` */
  function PadStart(s: string, n: nat): string {
    if |s| >= n then s else Fill(n - |s|) + s
  }

  /** `s.padEnd(n, "0")` */
  function PadEnd(s: string, n: nat): string {
    if |s| >= n then s else s + Fill(n - |s|)
  }

  /** `s.replace(/0+$/, "")` */
  function TrimZeros(s: string): (r: string)
    ensures r <= s && (r != [] ==> r[|r| - 1] != '0')
  {
    if s != [] && s[|s| - 1] == '0' then TrimZeros(s[..|s| - 1]) else s
  }

  lemma {:induction false} PaddedValue(s: string, zeros: nat)
    requires AllDigits(s)
    ensures FromDigits(Fill(zeros) + s) == FromDigits(s)
  {
    if s == [] {
      assert Fill(zeros) + [] == Fill(zeros);
      ZerosValue(zeros);
    } else {
      assert (Fill(zeros) + s)[..zeros + |s| - 1] == Fill(zeros) + s[..|s| - 1];
      PaddedValue(s[..|s| - 1], zeros);
    }
  }

  lemma {:induction false} ZerosValue(zeros: nat)
    ensures FromDigits(Fill(zeros)) == 0
  {
    if zeros > 0 {
      assert Fill(zeros)[..zeros - 1] == Fill(zeros - 1);
      ZerosValue(zeros - 1);
    }
  }

  lemma {:induction false} TrimPads(s: string)
    ensures PadEnd(TrimZeros(s), |s|) == s
  {
    if s != [] && s[|s| - 1] == '0' {
      var init := s[..|s| - 1];
      TrimPads(init);
      var r := TrimZeros(s);
      assert r == TrimZeros(init) && |r| <= |init|;
      assert s == init + ['0'];
      assert Fill(|s| - |r|) == Fill(|init| - |r|) + ['0'];
    }
  }

  // ---------------------------------------------------------------- reading

  /** The number of characters before the first point. */
  function PointAt(s: string): (i: nat)
    ensures i <= |s|
    ensures forall j :: 0 <= j < i ==> s[j] != '.'
    ensures i < |s| ==> s[i] == '.'
  {
    if s == [] || s[0] == '.' then 0 else 1 + PointAt(s[1..])
  }

  /** Digits, then perhaps a point and one to six digits. */
  predicate WellFormed(body: string) {
    var i := PointAt(body);
    && i > 0 && AllDigits(body[..i])
    && (i < |body| ==> 2 <= |body| - i <= 7 && AllDigits(body[i + 1..]))
  }

  function Magnitude(body: string): nat
    requires WellFormed(body)
  {
    var i := PointAt(body);
    var fraction := if i < |body| then body[i + 1..] else [];
    FromDigits(body[..i]) * MILLION + FromDigits(PadEnd(fraction, 6))
  }

  predicate Negative(text: string) {
    text != [] && text[0] == '-'
  }

  function Body(text: string): string {
    if Negative(text) then text[1..] else text
  }

  /** What a decimal of any size denotes, in millionths. */
  function Read(text: string): Option<int> {
    if !WellFormed(Body(text)) then None
    else Some(if Negative(text) then -(Magnitude(Body(text)) as int) else Magnitude(Body(text)))
  }

  /** `decimal`: at most seven digits before the point, and nothing beyond a million. */
  function Parse(text: string): Option<int> {
    var m := Read(text);
    if m.None? || PointAt(Body(text)) > 7 || Absolute(m.value) > MILLION * MILLION then None else m
  }

  // ---------------------------------------------------------------- printing

  function Absolute(m: int): nat {
    if m < 0 then -m else m
  }

  function Fraction(m: int): string {
    TrimZeros(PadStart(ToDigits(Absolute(m) % MILLION), 6))
  }

  function Print(m: int): string {
    (if m < 0 then "-" else "") + ToDigits(Absolute(m) / MILLION)
    + if Fraction(m) == "" then "" else "." + Fraction(m)
  }

  lemma SixDigits(f: nat)
    requires f < MILLION
    ensures |PadStart(ToDigits(f), 6)| == 6 && AllDigits(PadStart(ToDigits(f), 6))
    ensures FromDigits(PadStart(ToDigits(f), 6)) == f
  {
    assert Pow10(6) == MILLION by {
      assert Pow10(3) == 1000;
    }
    DigitsFit(f, 6);
    DigitsRoundTrip(f);
    PaddedValue(ToDigits(f), 6 - |ToDigits(f)|);
    assert Fill(0) + ToDigits(f) == ToDigits(f);
    hide ToDigits, FromDigits, Pow10;
  }

  lemma FractionValue(m: int)
    ensures |Fraction(m)| <= 6 && AllDigits(Fraction(m))
    ensures AllDigits(PadEnd(Fraction(m), 6)) && FromDigits(PadEnd(Fraction(m), 6)) == Absolute(m) % MILLION
  {
    var six := PadStart(ToDigits(Absolute(m) % MILLION), 6);
    SixDigits(Absolute(m) % MILLION);
    TrimPads(six);
    hide ToDigits, FromDigits, TrimZeros, PadStart;
  }

  lemma {:induction false} PointAfter(digits: string, rest: string)
    requires AllDigits(digits) && (rest == [] || rest[0] == '.')
    ensures PointAt(digits + rest) == |digits|
  {
    if digits == [] {
      assert digits + rest == rest;
    } else {
      assert (digits + rest)[1..] == digits[1..] + rest;
      PointAfter(digits[1..], rest);
    }
  }

  /** Digits before the point, and at most six after it. */
  lemma BodyReads(whole: string, fraction: string)
    requires whole != [] && AllDigits(whole) && |fraction| <= 6 && AllDigits(fraction)
    requires AllDigits(PadEnd(fraction, 6))
    ensures var body := whole + if fraction == "" then "" else "." + fraction;
            && PointAt(body) == |whole|
            && WellFormed(body)
            && Magnitude(body) == FromDigits(whole) * MILLION + FromDigits(PadEnd(fraction, 6))
  {
    if fraction == "" {
      PointAfter(whole, "");
      hide PointAt, FromDigits, PadEnd, AllDigits;
      assert whole + "" == whole && whole[..|whole|] == whole;
    } else {
      PointAfter(whole, "." + fraction);
      hide PointAt, FromDigits, PadEnd, AllDigits;
      Halves(whole, fraction);
    }
  }

  lemma Halves(whole: string, fraction: string)
    ensures (whole + ("." + fraction))[..|whole|] == whole
    ensures (whole + ("." + fraction))[|whole| + 1..] == fraction
  {
  }

  /** A printed amount denotes exactly that amount, whatever its size and sign. */
  lemma PrintReads(m: int)
    ensures Read(Print(m)) == Some(m)
    ensures PointAt(Body(Print(m))) == |ToDigits(Absolute(m) / MILLION)|
  {
    var whole, fraction := ToDigits(Absolute(m) / MILLION), Fraction(m);
    FractionValue(m);
    PrintBody(m, whole, if fraction == "" then "" else "." + fraction);
    DigitsRoundTrip(Absolute(m) / MILLION);
    BodyReads(whole, fraction);
    hide Print, ToDigits, FromDigits, Fraction, PointAt, Negative, Body, WellFormed, Magnitude;
  }

  lemma PrintBody(m: int, whole: string, rest: string)
    requires whole == ToDigits(Absolute(m) / MILLION)
    requires rest == if Fraction(m) == "" then "" else "." + Fraction(m)
    ensures Body(Print(m)) == whole + rest
    ensures Negative(Print(m)) <==> m < 0
  {
    hide ToDigits, Fraction;
    assert Print(m) == (if m < 0 then "-" else "") + (whole + rest);
    assert m >= 0 ==> Print(m) == whole + rest && Print(m)[0] == whole[0];
    assert m < 0 ==> Print(m)[1..] == whole + rest;
  }

  /** Reading a printed amount back succeeds exactly up to a million, and then is exact. */
  lemma PrintParses(m: int)
    ensures Parse(Print(m)) == if Absolute(m) <= MILLION * MILLION then Some(m) else None
  {
    PrintReads(m);
    assert Pow10(7) == 10 * MILLION by {
      assert Pow10(3) == 1000;
    }
    DigitsFit(Absolute(m) / MILLION, 7);
    hide Read, Print, ToDigits, PointAt, Body, Pow10;
  }

  // ---------------------------------------------------------------- which texts are read, and as what

  /** A sign or none, digits, and up to six digits behind a point. */
  ghost predicate Spelt(text: string, negative: bool, whole: string, fraction: string) {
    && text == (if negative then "-" else "") + whole + (if fraction == "" then "" else "." + fraction)
    && AllDigits(whole) && 1 <= |whole|
    && AllDigits(fraction) && |fraction| <= 6
  }

  function Millionths(negative: bool, whole: string, fraction: string): int
    requires AllDigits(whole) && AllDigits(fraction) && |fraction| <= 6
  {
    var n := FromDigits(whole) * 1_000_000 + FromDigits(fraction) * Pow10(6 - |fraction|);
    if negative then -n else n
  }

  lemma {:induction false} ShiftedValue(s: string, zeros: nat)
    requires AllDigits(s)
    ensures AllDigits(s + Fill(zeros)) && FromDigits(s + Fill(zeros)) == FromDigits(s) * Pow10(zeros)
  {
    if zeros == 0 {
      assert s + Fill(0) == s;
    } else {
      ShiftedValue(s, zeros - 1);
      var long := s + Fill(zeros);
      assert long[..|long| - 1] == s + Fill(zeros - 1);
    }
  }

  lemma PaddedEnd(fraction: string)
    requires AllDigits(fraction) && |fraction| <= 6
    ensures AllDigits(PadEnd(fraction, 6))
    ensures FromDigits(PadEnd(fraction, 6)) == FromDigits(fraction) * Pow10(6 - |fraction|)
  {
    hide *;
    PadIsFill(fraction);
    ShiftedValue(fraction, 6 - |fraction|);
  }

  lemma PadIsFill(fraction: string)
    requires |fraction| <= 6
    ensures PadEnd(fraction, 6) == fraction + Fill(6 - |fraction|)
  {
    assert fraction + Fill(0) == fraction;
  }

  lemma SignedBody(text: string, negative: bool, whole: string, rest: string)
    requires text == (if negative then "-" else "") + whole + rest
    requires whole != [] && AllDigits(whole)
    ensures Body(text) == whole + rest && (Negative(text) <==> negative)
  {
    assert negative ==> text == "-" + (whole + rest);
    assert negative ==> text[1..] == whole + rest;
    assert !negative ==> text == whole + rest && text[0] == whole[0];
  }

  lemma ReadUnfold(text: string)
    requires WellFormed(Body(text))
    ensures Read(text) == Some(if Negative(text) then -(Magnitude(Body(text)) as int) else Magnitude(Body(text)))
  {
    hide WellFormed, Body, Negative, Magnitude;
  }

  lemma SpeltReads(text: string, negative: bool, whole: string, fraction: string)
    requires Spelt(text, negative, whole, fraction)
    ensures Read(text) == Some(Millionths(negative, whole, fraction))
    ensures PointAt(Body(text)) == |whole|
  {
    hide Read, PointAt, FromDigits, PadEnd, WellFormed, Magnitude, Pow10, Body, Negative, AllDigits, IsDigit;
    PaddedEnd(fraction);
    BodyReads(whole, fraction);
    SignedBody(text, negative, whole, if fraction == "" then "" else "." + fraction);
    ReadUnfold(text);
  }

  lemma ReadSpelt(text: string) returns (negative: bool, whole: string, fraction: string)
    requires Read(text).Some?
    ensures Spelt(text, negative, whole, fraction)
  {
    hide Magnitude, PointAt, IsDigit;
    var body := Body(text);
    var i := PointAt(body);
    negative, whole, fraction := Negative(text), body[..i], if i < |body| then body[i + 1..] else [];
    BodyCut(body, i);
    SignJoined(text, whole, if fraction == "" then "" else "." + fraction);
  }

  lemma BodyCut(body: string, i: nat)
    requires i <= |body| && (i < |body| ==> body[i] == '.')
    ensures body == if i < |body| then body[..i] + ("." + body[i + 1..]) else body[..i] + ""
  {
  }

  lemma SignJoined(text: string, whole: string, rest: string)
    requires Body(text) == whole + rest
    ensures text == (if Negative(text) then "-" else "") + whole + rest
  {
    assert text == (if Negative(text) then "-" else "") + Body(text);
  }

  /** A text is read, and as this amount, exactly when it spells it with at most seven digits before and six behind
      the point, and the amount does not exceed a million. */
  lemma ParseMeaning(text: string, m: int)
    ensures Parse(text) == Some(m) <==>
              exists negative, whole, fraction ::
                && Spelt(text, negative, whole, fraction)
                && |whole| <= 7
                && m == Millionths(negative, whole, fraction)
                && -1_000_000_000_000 <= m <= 1_000_000_000_000
  {
    hide Read, PointAt, Body, Millionths;
    if Parse(text) == Some(m) {
      var negative, whole, fraction := ReadSpelt(text);
      SpeltReads(text, negative, whole, fraction);
      assert Spelt(text, negative, whole, fraction);
    }
    if negative, whole, fraction :|
         && Spelt(text, negative, whole, fraction) && |whole| <= 7 && m == Millionths(negative, whole, fraction)
         && -1_000_000_000_000 <= m <= 1_000_000_000_000 {
      SpeltReads(text, negative, whole, fraction);
    }
  }

  // ---------------------------------------------------------------- which text is printed

  lemma {:induction false} NoLeadingZero(n: nat)
    ensures ToDigits(n)[0] == '0' ==> ToDigits(n) == "0"
  {
    if n >= 10 {
      NoLeadingZero(n / 10);
      assert ToDigits(n)[0] == ToDigits(n / 10)[0];
    }
  }

  /** An amount is printed in one way: a sign exactly for a negative one, no zero in front of the whole part, no zero at
      the end of the fraction, and no point without a fraction. */
  lemma PrintCanonical(m: int)
    ensures var whole, fraction := ToDigits(Absolute(m) / MILLION), Fraction(m);
            && Spelt(Print(m), m < 0, whole, fraction)
            && (whole[0] == '0' ==> whole == "0")
            && (fraction != "" ==> fraction[|fraction| - 1] != '0')
  {
    FractionValue(m);
    NoLeadingZero(Absolute(m) / MILLION);
    hide FromDigits, PadEnd, PadStart;
  }
}
