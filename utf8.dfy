/** UTF-8 as defined by section 4 of RFC 3629 (Table 3-7 of the Unicode
    Standard, section 3.9): the well-formed byte sequences of one character,
    their proper prefixes, and the scalar value each sequence encodes.

    This module is the yardstick for the table-driven decoder: it says
    nothing about states or byte classes. */
module Utf8 {

  predicate IsByte(b: int) { 0 <= b < 256 }

  predicate IsBytes(s: seq<int>) { forall i | 0 <= i < |s| :: IsByte(s[i]) }

  /** UTF8-tail = %x80-BF */
  predicate IsTail(b: int) { 0x80 <= b <= 0xBF }

  /** UTF8-1 = %x00-7F */
  predicate IsUtf8One(s: seq<int>) {
    |s| == 1 && 0x00 <= s[0] <= 0x7F
  }

  /** UTF8-2 = %xC2-DF UTF8-tail */
  predicate IsUtf8Two(s: seq<int>) {
    |s| == 2 && 0xC2 <= s[0] <= 0xDF && IsTail(s[1])
  }

  /** UTF8-3 = %xE0 %xA0-BF UTF8-tail / %xE1-EC 2( UTF8-tail ) /
               %xED %x80-9F UTF8-tail / %xEE-EF 2( UTF8-tail ) */
  predicate IsUtf8Three(s: seq<int>) {
    |s| == 3 && IsTail(s[2]) &&
    ((s[0] == 0xE0 && 0xA0 <= s[1] <= 0xBF) ||
     (0xE1 <= s[0] <= 0xEC && IsTail(s[1])) ||
     (s[0] == 0xED && 0x80 <= s[1] <= 0x9F) ||
     (0xEE <= s[0] <= 0xEF && IsTail(s[1])))
  }

  /** UTF8-4 = %xF0 %x90-BF 2( UTF8-tail ) / %xF1-F3 3( UTF8-tail ) /
               %xF4 %x80-8F 2( UTF8-tail ) */
  predicate IsUtf8Four(s: seq<int>) {
    |s| == 4 && IsTail(s[2]) && IsTail(s[3]) &&
    ((s[0] == 0xF0 && 0x90 <= s[1] <= 0xBF) ||
     (0xF1 <= s[0] <= 0xF3 && IsTail(s[1])) ||
     (s[0] == 0xF4 && 0x80 <= s[1] <= 0x8F))
  }

  /** UTF8-char = UTF8-1 / UTF8-2 / UTF8-3 / UTF8-4 */
  predicate IsChar(s: seq<int>) {
    IsUtf8One(s) || IsUtf8Two(s) || IsUtf8Three(s) || IsUtf8Four(s)
  }

  /** Number of bytes of the character that lead byte `b` begins, or 0 when
      `b` begins none (a tail byte, 0xC0, 0xC1 or 0xF5-0xFF). */
  function SequenceLength(b: int): nat {
    if 0x00 <= b <= 0x7F then 1
    else if 0xC2 <= b <= 0xDF then 2
    else if 0xE0 <= b <= 0xEF then 3
    else if 0xF0 <= b <= 0xF4 then 4
    else 0
  }

  /** The second bytes the grammar allows after lead byte `lead`. */
  predicate SecondOk(lead: int, b: int) {
    if lead == 0xE0 then 0xA0 <= b <= 0xBF
    else if lead == 0xED then 0x80 <= b <= 0x9F
    else if lead == 0xF0 then 0x90 <= b <= 0xBF
    else if lead == 0xF4 then 0x80 <= b <= 0x8F
    else IsTail(b)
  }

  /** `p` is a non-empty proper prefix of a UTF8-char: a character that has
      begun but not yet ended (lemma PartialIsProperPrefix). */
  predicate IsPartial(p: seq<int>) {
    1 <= |p| < SequenceLength(p[0]) &&
    (|p| >= 2 ==> SecondOk(p[0], p[1])) &&
    (|p| >= 3 ==> IsTail(p[2]))
  }

  predicate IsScalarValue(cp: int) {
    0 <= cp <= 0x10FFFF && !(0xD800 <= cp <= 0xDFFF)
  }

  /** The scalar value a UTF8-char encodes: the lead byte's payload bits
      followed by six bits from each tail byte. */
  function Decode(s: seq<int>): int
    requires IsChar(s)
  {
    if |s| == 1 then s[0]
    else if |s| == 2 then (s[0] - 0xC0) * 0x40 + (s[1] - 0x80)
    else if |s| == 3 then (s[0] - 0xE0) * 0x1000 + (s[1] - 0x80) * 0x40 + (s[2] - 0x80)
    else (s[0] - 0xF0) * 0x40000 + (s[1] - 0x80) * 0x1000 + (s[2] - 0x80) * 0x40 + (s[3] - 0x80)
  }

  /** The shortest encoding of a scalar value (the table in section 3 of
      RFC 3629). */
  function Encode(cp: int): seq<int>
    requires IsScalarValue(cp)
  {
    if cp < 0x80 then [cp]
    else if cp < 0x800 then [0xC0 + cp / 0x40, 0x80 + cp % 0x40]
    else if cp < 0x10000 then
      [0xE0 + cp / 0x1000, 0x80 + cp / 0x40 % 0x40, 0x80 + cp % 0x40]
    else
      [0xF0 + cp / 0x40000, 0x80 + cp / 0x1000 % 0x40, 0x80 + cp / 0x40 % 0x40, 0x80 + cp % 0x40]
  }

  /** Every scalar value has a well-formed encoding, and decoding it gives the
      value back. */
  lemma {:induction false} EncodeDecode(cp: int)
    requires IsScalarValue(cp)
    ensures IsChar(Encode(cp)) && Decode(Encode(cp)) == cp
  {
    if cp < 0x80 {
    } else if cp < 0x800 {
      EncodeDecodeTwo(cp);
    } else if cp < 0x10000 {
      EncodeDecodeThree(cp);
    } else {
      EncodeDecodeFour(cp);
    }
  }

  lemma {:induction false} EncodeDecodeTwo(cp: int)
    requires 0x80 <= cp < 0x800
    ensures IsUtf8Two(Encode(cp)) && Decode(Encode(cp)) == cp
  {
    assert cp == (cp / 0x40) * 0x40 + cp % 0x40;
  }

  lemma {:induction false} EncodeDecodeThree(cp: int)
    requires IsScalarValue(cp) && 0x800 <= cp < 0x10000
    ensures IsUtf8Three(Encode(cp)) && Decode(Encode(cp)) == cp
  {
    var hi, mid, lo := cp / 0x1000, cp / 0x40 % 0x40, cp % 0x40;
    assert cp / 0x40 == hi * 0x40 + mid;
    assert cp == hi * 0x1000 + mid * 0x40 + lo;
  }

  lemma {:induction false} EncodeDecodeFour(cp: int)
    requires IsScalarValue(cp) && 0x10000 <= cp
    ensures IsUtf8Four(Encode(cp)) && Decode(Encode(cp)) == cp
  {
    var hi, b1, b2, lo := cp / 0x40000, cp / 0x1000 % 0x40, cp / 0x40 % 0x40, cp % 0x40;
    assert cp / 0x1000 == hi * 0x40 + b1;
    assert cp / 0x40 == (cp / 0x1000) * 0x40 + b2;
    assert cp == hi * 0x40000 + b1 * 0x1000 + b2 * 0x40 + lo;
  }

  /** Every well-formed sequence encodes a scalar value (no surrogate, nothing
      above U+10FFFF) and is that value's shortest encoding (no overlong
      form). */
  lemma {:induction false} DecodeEncode(s: seq<int>)
    requires IsChar(s)
    ensures IsScalarValue(Decode(s)) && Encode(Decode(s)) == s
  {
    if |s| == 2 {
      DecodeEncodeTwo(s);
    } else if |s| == 3 {
      DecodeEncodeThree(s);
    } else if |s| == 4 {
      DecodeEncodeFour(s);
    }
  }

  lemma {:induction false} DecodeEncodeTwo(s: seq<int>)
    requires IsUtf8Two(s)
    ensures IsScalarValue(Decode(s)) && Encode(Decode(s)) == s
  {
    var cp := Decode(s);
    assert 0x80 <= cp < 0x800;
    assert cp / 0x40 == s[0] - 0xC0 && cp % 0x40 == s[1] - 0x80;
  }

  lemma {:induction false} DecodeEncodeThree(s: seq<int>)
    requires IsUtf8Three(s)
    ensures IsScalarValue(Decode(s)) && Encode(Decode(s)) == s
  {
    var cp := Decode(s);
    var b0, b1, b2 := s[0] - 0xE0, s[1] - 0x80, s[2] - 0x80;
    assert cp == b0 * 0x1000 + b1 * 0x40 + b2;
    assert 0x800 <= cp < 0x10000;
    assert !(0xD800 <= cp <= 0xDFFF);
    assert cp / 0x40 == b0 * 0x40 + b1;
    assert cp / 0x1000 == b0;
    assert cp / 0x40 % 0x40 == b1;
    assert cp % 0x40 == b2;
  }

  lemma {:induction false} DecodeEncodeFour(s: seq<int>)
    requires IsUtf8Four(s)
    ensures IsScalarValue(Decode(s)) && Encode(Decode(s)) == s
  {
    var cp := Decode(s);
    var b0, b1, b2, b3 := s[0] - 0xF0, s[1] - 0x80, s[2] - 0x80, s[3] - 0x80;
    assert cp == b0 * 0x40000 + b1 * 0x1000 + b2 * 0x40 + b3;
    assert 0x10000 <= cp <= 0x10FFFF;
    assert cp / 0x40 == (b0 * 0x40 + b1) * 0x40 + b2;
    assert cp / 0x1000 == b0 * 0x40 + b1;
    assert cp / 0x40000 == b0;
    assert cp / 0x1000 % 0x40 == b1;
    assert cp / 0x40 % 0x40 == b2;
    assert cp % 0x40 == b3;
  }

  lemma {:induction false} CharIsBytes(s: seq<int>)
    requires IsChar(s)
    ensures IsBytes(s) && |s| == SequenceLength(s[0])
  {
  }

  /** IsPartial is exactly "a proper prefix of some UTF8-char". */
  lemma {:induction false} PartialIsProperPrefix(p: seq<int>)
    ensures IsPartial(p) <==> |p| >= 1 && exists t :: |t| >= 1 && IsChar(p + t)
  {
    if IsPartial(p) {
      PartialExtends(p);
    }
    if |p| >= 1 && exists t :: |t| >= 1 && IsChar(p + t) {
      var t :| |t| >= 1 && IsChar(p + t);
      ProperPrefixIsPartial(p, t);
    }
  }

  /** A partial character can be completed: with the smallest allowed
      second byte, then 0x80 tails. */
  lemma {:induction false} PartialExtends(p: seq<int>)
    requires IsPartial(p)
    ensures exists t :: |t| >= 1 && IsChar(p + t)
  {
    var n := SequenceLength(p[0]);
    var second := if p[0] == 0xE0 then 0xA0 else if p[0] == 0xF0 then 0x90 else 0x80;
    var full := if |p| == 1 then p + [second] + seq(n - 2, _ => 0x80) else p + seq(n - |p|, _ => 0x80);
    var t := full[|p|..];
    assert p + t == full;
    assert IsChar(full);
  }

  lemma {:induction false} ProperPrefixIsPartial(p: seq<int>, t: seq<int>)
    requires |p| >= 1 && |t| >= 1 && IsChar(p + t)
    ensures IsPartial(p)
  {
    var c := p + t;
    assert c[0] == p[0];
    assert |p| >= 2 ==> c[1] == p[1];
    assert |p| >= 3 ==> c[2] == p[2];
  }

  /** Every non-empty prefix of a partial character is partial. */
  lemma {:induction false} PartialPrefix(p: seq<int>, j: int)
    requires IsPartial(p) && 1 <= j <= |p|
    ensures IsPartial(p[..j])
  {
  }

  /** Every non-empty proper prefix of a character is partial. */
  lemma {:induction false} CharPrefix(c: seq<int>, j: int)
    requires IsChar(c) && 1 <= j < |c|
    ensures IsPartial(c[..j])
  {
  }

  /** A partial character is not a character, and a character or a sequence
      that is neither cannot be extended into either. */
  lemma {:induction false} Extension(p: seq<int>, t: seq<int>)
    requires |p| >= 1 && |t| >= 1
    ensures IsPartial(p) ==> !IsChar(p)
    ensures !IsPartial(p) ==> !IsPartial(p + t) && !IsChar(p + t)
  {
    PartialIsProperPrefix(p);
    if !IsPartial(p) && IsPartial(p + t) {
      assert (p + t)[..|p|] == p;
      PartialPrefix(p + t, |p|);
    }
  }
}
