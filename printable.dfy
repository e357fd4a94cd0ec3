/** The printability rule both extractors apply to every decoded code point
    (`is_printable`, u8strings.c:72-81; inline in utf8strings.c:97-105). */
module Printable {
  import opened Utf8

  /** `is_printable`, branch for branch: tab is printable, the other C0
      controls are not, DEL and the C1 controls are not, everything else is. */
  predicate IsPrintable(codep: int) {
    if codep == 0x09 then true
    else if codep < 0x20 then false
    else if 0x7F <= codep < 0xA0 then false
    else true
  }

  /** The control characters of Unicode (general category Cc): the C0
      range, DEL and the C1 range. */
  predicate IsControl(cp: int) {
    0x00 <= cp <= 0x1F || 0x7F <= cp <= 0x9F
  }

  /** On scalar values, printable means "not a control character, unless it
      is tab": the rule keeps every other character, including ones that
      do not show (no other Unicode category is excluded). */
  lemma {:induction false} PrintableIsNotControl(cp: int)
    requires IsScalarValue(cp)
    ensures IsPrintable(cp) <==> cp == 0x09 || !IsControl(cp)
  {
  }

  /** Only one- and two-byte characters can be unprintable, and an
      unprintable two-byte character starts with 0xC2 (U+0080 to U+009F):
      every character from U+00A0 on is printable. */
  lemma {:induction false} UnprintableIsShort(s: seq<int>)
    requires IsChar(s) && !IsPrintable(Decode(s))
    ensures |s| == 1 || (|s| == 2 && s[0] == 0xC2 && 0x80 <= s[1] <= 0x9F)
  {
    if |s| == 2 {
      assert (s[0] - 0xC0) * 0x40 < 0xA0;
      assert Decode(s) == s[1];
    }
  }
}
