/** The strict UTF-8 codec that text items pass through: code points in, bytes out, and back. */
module Utf8 {
  import opened Prelude

  /** A Python character: surrogates are characters, but have no UTF-8 spelling. */
  type codepoint = c: int | 0 <= c < 0x110000

  predicate Encodable(c: codepoint) {
    !(0xD800 <= c < 0xE000)
  }

  function EncodeChar(c: codepoint): (s: seq<byte>)
    ensures 1 <= |s| <= 4
  {
    if c < 0x80 then [c]
    else if c < 0x800 then [0xC0 + c / 64, 0x80 + c % 64]
    else if c < 0x10000 then [0xE0 + c / 64 / 64, 0x80 + c / 64 % 64, 0x80 + c % 64]
    else [0xF0 + c / 64 / 64 / 64, 0x80 + c / 64 / 64 % 64, 0x80 + c / 64 % 64, 0x80 + c % 64]
  }

  function Encode(s: seq<codepoint>): Option<seq<byte>> {
    if s == [] then Some([])
    else
      var rest := Encode(s[1..]);
      if !Encodable(s[0]) || rest.None? then None else Some(EncodeChar(s[0]) + rest.value)
  }

  predicate IsTrail(b: byte) {
    0x80 <= b < 0xC0
  }

  /** Six more bits at the low end of a character under construction. */
  function Shift(high: int, trail: byte): (c: int)
    requires IsTrail(trail)
    ensures c / 64 == high && c % 64 == trail - 0x80
  {
    high * 64 + (trail as int - 0x80)
  }

  /** The first character of `s`, refusing overlong forms, surrogates and values past U+10FFFF. */
  function DecodeChar(s: seq<byte>): (c: Option<codepoint>)
    requires s != []
    ensures c.Some? ==> Encodable(c.value) && |EncodeChar(c.value)| <= |s|
  {
    var first := s[0];
    if first < 0x80 then Some(first)
    else if 0xC2 <= first < 0xE0 then
      if |s| < 2 || !IsTrail(s[1]) then None
      else Some(Shift(first - 0xC0, s[1]))
    else if 0xE0 <= first < 0xF0 then
      if |s| < 3 || !IsTrail(s[1]) || !IsTrail(s[2]) then None
      else
        var c := Shift(Shift(first - 0xE0, s[1]), s[2]);
        if c < 0x800 || 0xD800 <= c < 0xE000 then None else Some(c)
    else if 0xF0 <= first < 0xF5 then
      if |s| < 4 || !IsTrail(s[1]) || !IsTrail(s[2]) || !IsTrail(s[3]) then None
      else
        var c := Shift(Shift(Shift(first - 0xF0, s[1]), s[2]), s[3]);
        if c < 0x10000 || 0x110000 <= c then None else Some(c)
    else None
  }

  function Decode(s: seq<byte>): Option<seq<codepoint>>
    decreases |s|
  {
    if s == [] then Some([])
    else
      var c := DecodeChar(s);
      if c.None? then None
      else
        var rest := Decode(s[|EncodeChar(c.value)|..]);
        if rest.None? then None else Some([c.value] + rest.value)
  }

  lemma DecodeCharSound(s: seq<byte>)
    requires s != [] && DecodeChar(s).Some?
    ensures EncodeChar(DecodeChar(s).value) == s[..|EncodeChar(DecodeChar(s).value)|]
  {
  }

  lemma DecodeCharComplete(c: codepoint, rest: seq<byte>)
    requires Encodable(c)
    ensures DecodeChar(EncodeChar(c) + rest) == Some(c)
  {
    var s := EncodeChar(c) + rest;
    assert |s| >= |EncodeChar(c)| && forall i :: 0 <= i < |EncodeChar(c)| ==> s[i] == EncodeChar(c)[i];
  }

  lemma DecodeEncodeStep(s: seq<byte>, c: codepoint)
    requires s != [] && Decode(s).Some? && DecodeChar(s) == Some(c)
    ensures Decode(s[|EncodeChar(c)|..]).Some?
    ensures Decode(s).value == [c] + Decode(s[|EncodeChar(c)|..]).value
    ensures s == s[..|EncodeChar(c)|] + s[|EncodeChar(c)|..]
  {
  }

  lemma {:induction false} DecodeEncode(s: seq<byte>)
    requires Decode(s).Some?
    ensures Encode(Decode(s).value) == Some(s)
    ensures |Decode(s).value| <= |s|
    decreases |s|
  {
    if s != [] {
      DecodeCharSound(s);
      DecodeEncodeStep(s, DecodeChar(s).value);
      DecodeEncode(s[|EncodeChar(DecodeChar(s).value)|..]);
    }
  }

  lemma {:induction false} EncodeDecode(t: seq<codepoint>)
    requires Encode(t).Some?
    ensures Decode(Encode(t).value) == Some(t)
    ensures |t| <= |Encode(t).value|
  {
    hide EncodeChar, DecodeChar;
    if t != [] {
      var rest := Encode(t[1..]).value;
      EncodeDecode(t[1..]);
      DecodeCharComplete(t[0], rest);
      var s := EncodeChar(t[0]) + rest;
      assert s[|EncodeChar(t[0])|..] == rest;
      assert t == [t[0]] + t[1..];
    }
  }

  /** The strict decoder accepts a byte string as `t` exactly when `t` is spelled by it. */
  lemma CodecBijection(s: seq<byte>, t: seq<codepoint>)
    ensures Decode(s) == Some(t) <==> Encode(t) == Some(s)
  {
    if Decode(s) == Some(t) { DecodeEncode(s); }
    if Encode(t) == Some(s) { EncodeDecode(t); }
  }

  /** The byte lies in a block of `size` numbers from `low` on. */
  predicate Marked(b: byte, low: nat, size: nat) {
    low <= b < low + size
  }

  /** The table of section 3 of RFC 3629: how many bytes a character takes, how they are marked, and that the bits
      behind the marks, the first byte's on top, are the character. */
  lemma CharMeaning(c: codepoint)
    ensures var s := EncodeChar(c);
            if c < 128 then s == [c]
            else if c < 2048 then
              && |s| == 2 && Marked(s[0], 192, 32) && Marked(s[1], 128, 64)
              && 64 * (s[0] as int - 192) + (s[1] as int - 128) == c
            else if c < 65536 then
              && |s| == 3 && Marked(s[0], 224, 16) && Marked(s[1], 128, 64) && Marked(s[2], 128, 64)
              && 4096 * (s[0] as int - 224) + 64 * (s[1] as int - 128) + (s[2] as int - 128) == c
            else
              && |s| == 4 && Marked(s[0], 240, 8) && Marked(s[1], 128, 64) && Marked(s[2], 128, 64) && Marked(s[3], 128, 64)
              && 262144 * (s[0] as int - 240) + 4096 * (s[1] as int - 128) + 64 * (s[2] as int - 128)
                 + (s[3] as int - 128) == c
  {
  }

  /** A text is encoded character by character, unless one of them is a surrogate. */
  lemma {:induction false} EncodeMeaning(t: seq<codepoint>)
    ensures Encode(t).Some? <==> forall i :: 0 <= i < |t| ==> t[i] < 0xD800 || t[i] > 0xDFFF
    ensures t != [] && Encode(t).Some? ==>
              Encode(t[1..]).Some? && Encode(t).value == EncodeChar(t[0]) + Encode(t[1..]).value
  {
    if t != [] {
      EncodeMeaning(t[1..]);
      assert forall i :: 0 < i < |t| ==> t[i] == t[1..][i - 1];
      hide EncodeChar;
    }
  }
}
