/** `encode_query_param` and `decode_url`. */
module PercentEncoding {
  import opened Bytes
  import Chunked

  const PERCENT: byte := 37
  const PLUS: byte := 43
  const SPACE: byte := 32
  const LETTER_U: byte := 117

  /** Letters, digits and - _ . ! ~ * ' ( ) are written as they are. */
  predicate Plain(c: byte)
  {
    48 <= c <= 57 || 65 <= c <= 90 || 97 <= c <= 122 ||
    c == 45 || c == 95 || c == 46 || c == 33 || c == 126 || c == 42 || c == 39 || c == 40 || c == 41
  }

  function UpperHex(d: nat): (c: byte)
    requires d < 16
  {
    if d < 10 then 48 + d else 55 + d
  }

  function EncodeByte(c: byte): (r: bytes)
  {
    if Plain(c) then [c] else [PERCENT, UpperHex(c / 16), UpperHex(c % 16)]
  }

  function EncodeParam(value: bytes): (r: bytes)
  {
    if value == [] then [] else EncodeByte(value[0]) + EncodeParam(value[1..])
  }

  /** `cnt` hexadecimal digits at the start of `s`; running off its end reads the terminating zero. */
  function HexDigits(s: bytes, cnt: nat, val: nat): (r: Option<nat>)
    decreases cnt
  {
    if cnt == 0 then Some(val)
    else if s == [] || Chunked.HexValue(s[0]).None? then None
    else HexDigits(s[1..], cnt - 1, val * 16 + Chunked.HexValue(s[0]).value)
  }

  lemma {:induction false} HexDigitsFit(s: bytes, cnt: nat, val: nat)
    ensures HexDigits(s, cnt, val).Some? ==> cnt <= |s|
    decreases cnt
  {
    if cnt > 0 && s != [] && Chunked.HexValue(s[0]).Some? {
      HexDigitsFit(s[1..], cnt - 1, val * 16 + Chunked.HexValue(s[0]).value);
    }
  }

  /** `to_utf8`; nothing for surrogates. */
  function Utf8(code: nat): (r: bytes)
  {
    if code < 0x80 then [code]
    else if code < 0x800 then [0xC0 + code / 64, 0x80 + code % 64]
    else if code < 0xD800 then [0xE0 + code / 4096, 0x80 + code / 64 % 64, 0x80 + code % 64]
    else if code < 0xE000 then []
    else if code < 0x10000 then [0xE0 + code / 4096, 0x80 + code / 64 % 64, 0x80 + code % 64]
    else if code < 0x110000 then
      [0xF0 + code / 262144, 0x80 + code / 4096 % 64, 0x80 + code / 64 % 64, 0x80 + code % 64]
    else []
  }

  /** The characters of the examples of RFC 3629, section 7. */
  lemma Utf8Examples()
    ensures Utf8(0x41) == [0x41] && Utf8(0x391) == [0xCE, 0x91] && Utf8(0x2262) == [0xE2, 0x89, 0xA2]
    ensures Utf8(0xD55C) == [0xED, 0x95, 0x9C] && Utf8(0x233B4) == [0xF0, 0xA3, 0x8E, 0xB4]
  {
  }

  predicate Continuation(c: byte)
  {
    0x80 <= c < 0xC0
  }

  function Join(high: nat, c: byte): (code: nat)
    requires Continuation(c)
  {
    high * 64 + (c - 0x80)
  }

  /** The one character that a whole byte string encodes by RFC 3629, section 3: the shortest form only,
      no surrogates, nothing above 10FFFF. */
  function ReadUtf8(s: bytes): (r: Option<nat>)
  {
    if |s| == 1 && s[0] < 0x80 then Some(s[0])
    else if |s| == 2 && 0xC0 <= s[0] < 0xE0 && Continuation(s[1]) then
      var code := Join(s[0] - 0xC0, s[1]);
      if code >= 0x80 then Some(code) else None
    else if |s| == 3 && 0xE0 <= s[0] < 0xF0 && Continuation(s[1]) && Continuation(s[2]) then
      var code := Join(Join(s[0] - 0xE0, s[1]), s[2]);
      if code >= 0x800 && !(0xD800 <= code < 0xE000) then Some(code) else None
    else if |s| == 4 && 0xF0 <= s[0] < 0xF8 && Continuation(s[1]) && Continuation(s[2]) && Continuation(s[3]) then
      var code := Join(Join(Join(s[0] - 0xF0, s[1]), s[2]), s[3]);
      if 0x10000 <= code < 0x110000 then Some(code) else None
    else None
  }

  /** Every character is written in its well-formed encoding, and surrogates and the rest as nothing. */
  lemma Utf8WellFormed(code: nat)
    ensures code < 0xD800 || 0xE000 <= code < 0x110000 ==> ReadUtf8(Utf8(code)) == Some(code)
    ensures !(code < 0xD800 || 0xE000 <= code < 0x110000) ==> Utf8(code) == []
  {
    assert code / 4096 == code / 64 / 64 && code / 262144 == code / 64 / 64 / 64;
  }

  function DecodeUrl(s: bytes, plusToSpace: bool): (r: bytes)
    decreases |s|
  {
    if s == [] then []
    else if s[0] == PERCENT && |s| > 1 then
      if s[1] == LETTER_U then
        var val := HexDigits(s[2..], 4, 0);
        if val.Some? && |s| >= 6 then Utf8(val.value) + DecodeUrl(s[6..], plusToSpace)
        else [s[0]] + DecodeUrl(s[1..], plusToSpace)
      else
        var val := HexDigits(s[1..], 2, 0);
        if val.Some? && |s| >= 3 then [val.value % 256] + DecodeUrl(s[3..], plusToSpace)
        else [s[0]] + DecodeUrl(s[1..], plusToSpace)
    else if plusToSpace && s[0] == PLUS then [SPACE] + DecodeUrl(s[1..], plusToSpace)
    else [s[0]] + DecodeUrl(s[1..], plusToSpace)
  }

  lemma UpperHexValue(d: nat)
    requires d < 16
    ensures Chunked.HexValue(UpperHex(d)) == Some(d) && UpperHex(d) != LETTER_U && Plain(UpperHex(d))
  {
  }

  lemma DecodeByte(c: byte, rest: bytes, plus: bool)
    ensures DecodeUrl(EncodeByte(c) + rest, plus) == [c] + DecodeUrl(rest, plus)
  {
    var s := EncodeByte(c) + rest;
    if Plain(c) {
      assert s[1..] == rest;
    } else {
      hide UpperHex, Chunked.HexValue, DecodeUrl;
      UpperHexValue(c / 16);
      UpperHexValue(c % 16);
      assert HexDigits(s[1..], 2, 0) == Some(c) by {
        assert s[1..][1..] == s[2..] && s[2..][1..] == s[3..];
        assert HexDigits(s[3..], 0, c) == Some(c);
        assert HexDigits(s[2..], 1, c / 16) == HexDigits(s[3..], 0, c / 16 * 16 + c % 16);
      }
      assert s[3..] == rest;
      DecodeEscape(s, c, plus);
    }
  }

  lemma DecodeEscape(s: bytes, c: byte, plus: bool)
    requires |s| >= 3 && s[0] == PERCENT && s[1] != LETTER_U && HexDigits(s[1..], 2, 0) == Some(c)
    ensures DecodeUrl(s, plus) == [c] + DecodeUrl(s[3..], plus)
  {
  }

  /** Decoding undoes encoding on every byte string, whichever way a plus sign is read. */
  lemma {:induction false} DecodeOfEncode(value: bytes, plus: bool)
    ensures DecodeUrl(EncodeParam(value), plus) == value
  {
    hide EncodeByte, DecodeUrl;
    if value != [] {
      DecodeByte(value[0], EncodeParam(value[1..]), plus);
      DecodeOfEncode(value[1..], plus);
    } else {
      DecodeNothing(plus);
    }
  }

  lemma DecodeNothing(plus: bool)
    ensures DecodeUrl([], plus) == []
  {
  }

  /** Each byte is written as itself if it is a letter, a digit or one of nine marks, and else as a per cent sign and
      its two digits in upper case. */
  lemma EncodeByteExactly(c: byte)
    ensures EncodeByte(c) ==
            if 'A' <= c as char <= 'Z' || 'a' <= c as char <= 'z' || '0' <= c as char <= '9' || c as char in "-_.!~*'()"
            then [c]
            else [37, "0123456789ABCDEF"[c / 16] as int, "0123456789ABCDEF"[c % 16] as int]
  {
    UpperRow(c / 16);
    UpperRow(c % 16);
  }

  lemma UpperRow(d: nat)
    requires d < 16
    ensures UpperHex(d) == "0123456789ABCDEF"[d] as int
  {
    assert d == 0 || d == 1 || d == 2 || d == 3 || d == 4 || d == 5 || d == 6 || d == 7 || d == 8 || d == 9
        || d == 10 || d == 11 || d == 12 || d == 13 || d == 14 || d == 15;
  }

  /** The encoding uses plain characters and per cent signs only. */
  lemma {:induction false} EncodedAlphabet(value: bytes)
    ensures forall c :: c in EncodeParam(value) ==> Plain(c) || c == PERCENT
  {
    if value != [] {
      EncodedAlphabet(value[1..]);
      UpperHexValue(value[0] / 16);
      UpperHexValue(value[0] % 16);
    }
  }

  /** Plain text decodes to itself. */
  lemma {:induction false} DecodePlain(s: bytes, plus: bool)
    requires forall c :: c in s ==> Plain(c)
    ensures DecodeUrl(s, plus) == s
  {
    if s != [] {
      DecodePlain(s[1..], plus);
      assert s[0] in s && s == [s[0]] + s[1..];
    }
  }

  // ---------- What decoding leaves alone ----------

  predicate Hex(c: byte)
  {
    Chunked.HexValue(c).Some?
  }

  /** A whole escape starts at `i`: %XX, or %uXXXX. */
  predicate EscapeAt(s: bytes, i: nat)
    requires i < |s|
  {
    s[i] == PERCENT &&
    ((i + 3 <= |s| && Hex(s[i + 1]) && Hex(s[i + 2])) ||
     (i + 6 <= |s| && s[i + 1] == LETTER_U && forall j :: i + 2 <= j < i + 6 ==> Hex(s[j])))
  }

  /** No plus sign and no whole escape. */
  predicate Literal(s: bytes)
  {
    PLUS !in s && forall i :: 0 <= i < |s| ==> !EscapeAt(s, i)
  }

  lemma {:induction false} AllHexDigits(s: bytes, cnt: nat, val: nat)
    ensures HexDigits(s, cnt, val).Some? <==> |s| >= cnt && forall j :: 0 <= j < cnt ==> Hex(s[j])
    decreases cnt
  {
    if cnt > 0 && s != [] && Hex(s[0]) {
      AllHexDigits(s[1..], cnt - 1, val * 16 + Chunked.HexValue(s[0]).value);
      assert forall j :: 0 < j < cnt && j < |s| ==> s[j] == s[1..][j - 1];
    }
  }

  /** Decoding never lengthens. */
  lemma {:induction false} DecodeShortens(s: bytes, plus: bool)
    ensures |DecodeUrl(s, plus)| <= |s|
    decreases |s|
  {
    hide HexDigits;
    if s != [] {
      DecodeShortens(s[1..], plus);
      if |s| >= 3 { DecodeShortens(s[3..], plus); }
      if |s| >= 6 { DecodeShortens(s[6..], plus); }
    }
  }

  lemma EscapeFirst(s: bytes)
    requires s != []
    ensures EscapeAt(s, 0) ==> |DecodeUrl(s, true)| < |s|
    ensures !EscapeAt(s, 0) && s[0] != PLUS ==> DecodeUrl(s, true) == [s[0]] + DecodeUrl(s[1..], true)
  {
    if |s| >= 2 {
      AllHexDigits(s[1..], 2, 0);
      AllHexDigits(s[2..], 4, 0);
      assert forall j :: 0 <= j < 2 && j + 1 < |s| ==> s[1..][j] == s[j + 1];
      assert forall j :: 2 <= j < |s| ==> s[j] == s[2..][j - 2];
    }
    if |s| >= 3 { DecodeShortens(s[3..], true); }
    if |s| >= 6 { DecodeShortens(s[6..], true); }
    hide HexDigits;
  }

  /** One step of decoding, whatever the text: %XX is the byte with these two digits, %uXXXX the encoding of the
      character with these four, a plus sign a space if that is asked for, anything else is itself. */
  lemma DecodeExactly(s: bytes, plus: bool)
    requires s != []
    ensures EscapeAt(s, 0) && s[1] != 117 ==>
              DecodeUrl(s, plus)
              == [16 * Chunked.HexValue(s[1]).value + Chunked.HexValue(s[2]).value] + DecodeUrl(s[3..], plus)
    ensures EscapeAt(s, 0) && s[1] == 117 ==>
              DecodeUrl(s, plus)
              == Utf8(0x1000 * Chunked.HexValue(s[2]).value + 0x100 * Chunked.HexValue(s[3]).value
                      + 0x10 * Chunked.HexValue(s[4]).value + Chunked.HexValue(s[5]).value) + DecodeUrl(s[6..], plus)
    ensures !EscapeAt(s, 0) ==>
              DecodeUrl(s, plus) == [if plus && s[0] == 43 then 32 else s[0]] + DecodeUrl(s[1..], plus)
  {
    hide Utf8;
    if |s| >= 2 {
      AllHexDigits(s[1..], 2, 0);
      AllHexDigits(s[2..], 4, 0);
      assert forall j :: 0 <= j < 2 && j + 1 < |s| ==> s[1..][j] == s[j + 1];
      assert forall j :: 2 <= j < |s| ==> s[j] == s[2..][j - 2];
      if EscapeAt(s, 0) {
        assert Chunked.HexValue(117).None?;
        if s[1] == 117 { FourDigits(s[2..]); } else { TwoDigits(s[1..]); }
      }
    }
    hide HexDigits;
  }

  lemma TwoDigits(s: bytes)
    requires |s| >= 2 && Hex(s[0]) && Hex(s[1])
    ensures HexDigits(s, 2, 0) == Some(16 * Chunked.HexValue(s[0]).value + Chunked.HexValue(s[1]).value)
  {
    var a, b := Chunked.HexValue(s[0]).value, Chunked.HexValue(s[1]).value;
    assert s[1..][0] == s[1];
    assert HexDigits(s[1..][1..], 0, a * 16 + b) == Some(a * 16 + b);
    assert HexDigits(s[1..], 1, a) == Some(a * 16 + b);
  }

  lemma FourDigits(s: bytes)
    requires |s| >= 4 && Hex(s[0]) && Hex(s[1]) && Hex(s[2]) && Hex(s[3])
    ensures HexDigits(s, 4, 0)
         == Some(0x1000 * Chunked.HexValue(s[0]).value + 0x100 * Chunked.HexValue(s[1]).value
                 + 0x10 * Chunked.HexValue(s[2]).value + Chunked.HexValue(s[3]).value)
  {
    var a, b := Chunked.HexValue(s[0]).value, Chunked.HexValue(s[1]).value;
    var v := a * 16 + b;
    var t := s[1..][1..];
    assert s[1..][0] == s[1] && t[0] == s[2] && t[1] == s[3];
    var c, d := Chunked.HexValue(t[0]).value, Chunked.HexValue(t[1]).value;
    assert t[1..][0] == t[1];
    assert HexDigits(t[1..][1..], 0, (v * 16 + c) * 16 + d) == Some((v * 16 + c) * 16 + d);
    assert HexDigits(t[1..], 1, v * 16 + c) == Some((v * 16 + c) * 16 + d);
    assert HexDigits(t, 2, v) == Some((v * 16 + c) * 16 + d);
    assert HexDigits(s[1..], 3, a) == HexDigits(t, 2, v);
    assert HexDigits(s, 4, 0) == HexDigits(s[1..], 3, a);
  }

  /** A character written as %u and four digits comes back in its well-formed encoding; a surrogate comes back as
      nothing. */
  lemma UnicodeEscape(digits: bytes, rest: bytes, plus: bool)
    requires |digits| == 4 && Hex(digits[0]) && Hex(digits[1]) && Hex(digits[2]) && Hex(digits[3])
    ensures (var code := 0x1000 * Chunked.HexValue(digits[0]).value + 0x100 * Chunked.HexValue(digits[1]).value
                         + 0x10 * Chunked.HexValue(digits[2]).value + Chunked.HexValue(digits[3]).value;
             exists r: bytes ::
               DecodeUrl([37, 117] + digits + rest, plus) == r + DecodeUrl(rest, plus)
               && if 0xD800 <= code < 0xE000 then r == [] else ReadUtf8(r) == Some(code))
  {
    var s := [37, 117] + digits + rest;
    assert s[6..] == rest;
    assert s[2] == digits[0] && s[3] == digits[1] && s[4] == digits[2] && s[5] == digits[3];
    assert EscapeAt(s, 0) by { assert forall j :: 2 <= j < 6 ==> s[j] == digits[j - 2]; }
    DecodeExactly(s, plus);
    Utf8WellFormed(0x1000 * Chunked.HexValue(digits[0]).value + 0x100 * Chunked.HexValue(digits[1]).value
                   + 0x10 * Chunked.HexValue(digits[2]).value + Chunked.HexValue(digits[3]).value);
    hide Utf8, ReadUtf8, DecodeUrl;
  }

  // ---------- Form encoding ----------

  /** As forms are sent: a space becomes a plus sign, everything else is percent-encoded. */
  function FormEncode(v: bytes): (r: bytes)
  {
    if v == [] then [] else (if v[0] == 32 then [43] else EncodeByte(v[0])) + FormEncode(v[1..])
  }

  function PlusForSpace(v: bytes): (r: bytes)
    ensures |r| == |v| && forall i :: 0 <= i < |v| ==> r[i] == if v[i] == 32 then 43 else v[i]
  {
    seq(|v|, i requires 0 <= i < |v| => if v[i] == 32 then 43 else v[i])
  }

  /** Decoding undoes that encoding if plus signs are read as spaces; if not, each space is read as the plus sign
      that was sent for it. */
  lemma {:induction false} DecodeOfForm(v: bytes)
    ensures DecodeUrl(FormEncode(v), true) == v
    ensures DecodeUrl(FormEncode(v), false) == PlusForSpace(v)
  {
    hide EncodeByte, DecodeUrl;
    if v == [] {
      DecodeNothing(true);
      DecodeNothing(false);
    } else {
      var t := FormEncode(v[1..]);
      DecodeOfForm(v[1..]);
      assert PlusForSpace(v) == [if v[0] == 32 then 43 else v[0]] + PlusForSpace(v[1..]);
      if v[0] == 32 {
        PlusDecoded(t);
      } else {
        DecodeByte(v[0], t, true);
        DecodeByte(v[0], t, false);
      }
    }
  }

  lemma PlusDecoded(t: bytes)
    ensures DecodeUrl([43] + t, true) == [32] + DecodeUrl(t, true)
    ensures DecodeUrl([43] + t, false) == [43] + DecodeUrl(t, false)
  {
    DecodeExactly([43] + t, true);
    DecodeExactly([43] + t, false);
    assert ([43] + t)[1..] == t;
  }

  lemma LiteralCons(s: bytes)
    requires s != []
    ensures Literal(s) <==> s[0] != PLUS && !EscapeAt(s, 0) && Literal(s[1..])
  {
    hide EscapeAt;
    assert s == [s[0]] + s[1..];
    forall i: nat | i < |s| - 1 ensures EscapeAt(s[1..], i) == EscapeAt(s, i + 1) { EscapeShift(s, i); }
    if Literal(s[1..]) && s[0] != PLUS && !EscapeAt(s, 0) {
      forall i: nat | i < |s| ensures !EscapeAt(s, i) {
        if i > 0 { assert !EscapeAt(s[1..], i - 1); }
      }
    }
  }

  lemma EscapeShift(s: bytes, i: nat)
    requires i + 1 < |s|
    ensures EscapeAt(s[1..], i) == EscapeAt(s, i + 1)
  {
    var t := s[1..];
    assert forall j :: 0 <= j < |t| ==> t[j] == s[j + 1];
    assert forall j :: 0 < j < |s| ==> s[j] == t[j - 1];
    hide Hex;
  }

  /** A text decodes to itself, plus signs read as spaces, if and only if it has no plus sign and no whole
      escape. */
  lemma {:induction false} LiteralExactly(s: bytes)
    ensures Literal(s) <==> DecodeUrl(s, true) == s
  {
    hide Literal, EscapeAt;
    if s == [] {
      DecodeNothing(true);
      LiteralNothing();
    } else {
      LiteralCons(s);
      EscapeFirst(s);
      LiteralExactly(s[1..]);
      assert s == [s[0]] + s[1..];
      if s[0] == PLUS { assert DecodeUrl(s, true)[0] == SPACE; }
    }
  }

  lemma LiteralNothing()
    ensures Literal([])
  {
  }

  // ---------- The loops ----------

  method EncodeQueryParam(value: bytes) returns (escaped: bytes)
    ensures escaped == EncodeParam(value)
  {
    escaped := [];
    for i := 0 to |value|
      invariant escaped + EncodeParam(value[i..]) == EncodeParam(value)
    {
      ConcatAssoc(escaped, EncodeByte(value[i]), EncodeParam(value[i + 1..]));
      assert value[i..][1..] == value[i + 1..];
      if Plain(value[i]) {
        escaped := escaped + [value[i]];
      } else {
        escaped := escaped + [PERCENT, UpperHex(value[i] / 16), UpperHex(value[i] % 16)];
      }
    }
  }

  /** Reads `s[|s|]` as the terminating zero, which is no digit. */
  method FromHexToI(s: bytes, start: nat, cnt: nat) returns (val: Option<nat>)
    requires start <= |s| && cnt > 0
    ensures val == HexDigits(s[start..], cnt, 0)
  {
    if start >= |s| { return None; }
    var i, left, v := start, cnt, 0;
    while left > 0
      invariant start <= i <= |s|
      invariant HexDigits(s[i..], left, v) == HexDigits(s[start..], cnt, 0)
      decreases left
    {
      if i == |s| || s[i] == 0 { return None; }
      var d := Chunked.HexValue(s[i]);
      if d.None? { return None; }
      assert s[i..][1..] == s[i + 1..];
      v, i, left := v * 16 + d.value, i + 1, left - 1;
    }
    return Some(v);
  }

  method DecodeUrlText(s: bytes, convertPlusToSpace: bool) returns (result: bytes)
    ensures result == DecodeUrl(s, convertPlusToSpace)
  {
    result := [];
    var i := 0;
    while i < |s|
      invariant i <= |s|
      invariant result + DecodeUrl(s[i..], convertPlusToSpace) == DecodeUrl(s, convertPlusToSpace)
    {
      ghost var t := s[i..];
      ghost var before := result;
      ghost var k := 1;
      if s[i] == PERCENT && i + 1 < |s| {
        if s[i + 1] == LETTER_U {
          var val := FromHexToI(s, i + 2, 4);
          assert t[2..] == s[i + 2..];
          HexDigitsFit(s[i + 2..], 4, 0);
          if val.Some? {
            result := result + Utf8(val.value);
            i := i + 5;
            k := 6;
          } else {
            result := result + [s[i]];
          }
        } else {
          var val := FromHexToI(s, i + 1, 2);
          assert t[1..] == s[i + 1..];
          HexDigitsFit(s[i + 1..], 2, 0);
          if val.Some? {
            result := result + [val.value % 256];
            i := i + 2;
            k := 3;
          } else {
            result := result + [s[i]];
          }
        }
      } else if convertPlusToSpace && s[i] == PLUS {
        result := result + [SPACE];
      } else {
        result := result + [s[i]];
      }
      i := i + 1;
      assert t[k..] == s[i..];
      ConcatAssoc(before, result[|before|..], DecodeUrl(s[i..], convertPlusToSpace));
    }
  }
}
