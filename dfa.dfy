/** Bjoern Hoehrmann's table-driven UTF-8 decoder, as u8strings.c embeds it
    (u8strings.c:38-70, 119-124): a byte-class table, a transition table over
    nine states, and a code-point accumulator of C type `unsigned int`.
    The lookups are written by ranges and cases here; ByteClassIsTable and
    TransitionIsTable show that they equal the tables. The accumulator's
    masks and shifts are computed arithmetically; SeedIsBitAnd and
    ShiftIsBitOr show that they equal the C bit expressions on 32-bit
    values.

    Main results: the tables have the shape the decoder relies on
    (ByteClassRanges, RejectIsAbsorbing, StartRejects), and
    starting from ACCEPT the automaton returns to ACCEPT exactly at the end
    of a well-formed RFC 3629 sequence, with the accumulator holding its
    scalar value (Decodes, ReturnsToAccept). */
module Dfa {
  import opened Utf8

  const ACCEPT := 0
  const REJECT := 1

  /** `utf8d`, the class of every byte value (u8strings.c:41-58), one row
      per sixteen byte values: byte `b` is entry `b % 16` of row `b / 16`. */
  function Utf8dRow(r: int): (row: seq<int>)
    requires 0 <= r < 16
    ensures |row| == 16
  {
    match r
    case 0 => [ 0,  0,  0,  0,  0,  0,  0,  0,  0,  0,  0,  0,  0,  0,  0,  0]  // 0x00 .. 0x0F
    case 1 => [ 0,  0,  0,  0,  0,  0,  0,  0,  0,  0,  0,  0,  0,  0,  0,  0]  // 0x10 .. 0x1F
    case 2 => [ 0,  0,  0,  0,  0,  0,  0,  0,  0,  0,  0,  0,  0,  0,  0,  0]  // 0x20 .. 0x2F
    case 3 => [ 0,  0,  0,  0,  0,  0,  0,  0,  0,  0,  0,  0,  0,  0,  0,  0]  // 0x30 .. 0x3F
    case 4 => [ 0,  0,  0,  0,  0,  0,  0,  0,  0,  0,  0,  0,  0,  0,  0,  0]  // 0x40 .. 0x4F
    case 5 => [ 0,  0,  0,  0,  0,  0,  0,  0,  0,  0,  0,  0,  0,  0,  0,  0]  // 0x50 .. 0x5F
    case 6 => [ 0,  0,  0,  0,  0,  0,  0,  0,  0,  0,  0,  0,  0,  0,  0,  0]  // 0x60 .. 0x6F
    case 7 => [ 0,  0,  0,  0,  0,  0,  0,  0,  0,  0,  0,  0,  0,  0,  0,  0]  // 0x70 .. 0x7F
    case 8 => [ 1,  1,  1,  1,  1,  1,  1,  1,  1,  1,  1,  1,  1,  1,  1,  1]  // 0x80 .. 0x8F
    case 9 => [ 9,  9,  9,  9,  9,  9,  9,  9,  9,  9,  9,  9,  9,  9,  9,  9]  // 0x90 .. 0x9F
    case 10 => [ 7,  7,  7,  7,  7,  7,  7,  7,  7,  7,  7,  7,  7,  7,  7,  7]  // 0xA0 .. 0xAF
    case 11 => [ 7,  7,  7,  7,  7,  7,  7,  7,  7,  7,  7,  7,  7,  7,  7,  7]  // 0xB0 .. 0xBF
    case 12 => [ 8,  8,  2,  2,  2,  2,  2,  2,  2,  2,  2,  2,  2,  2,  2,  2]  // 0xC0 .. 0xCF
    case 13 => [ 2,  2,  2,  2,  2,  2,  2,  2,  2,  2,  2,  2,  2,  2,  2,  2]  // 0xD0 .. 0xDF
    case 14 => [10,  3,  3,  3,  3,  3,  3,  3,  3,  3,  3,  3,  3,  4,  3,  3]  // 0xE0 .. 0xEF
    case _ => [11,  6,  6,  6,  5,  8,  8,  8,  8,  8,  8,  8,  8,  8,  8,  8]  // 0xF0 .. 0xFF
  }

  /** `utf8t`, the next state (u8strings.c:60-70), one row per state:
      `utf8t[state * 16 + class]` is entry `class` of row `state`. */
  function Utf8tRow(q: int): (row: seq<int>)
    requires 0 <= q < 9
    ensures |row| == 16
  {
    match q
    case 0 => [0, 1, 2, 3, 5, 8, 7, 1, 1, 1, 4, 6, 1, 1, 1, 1]  // 0 = ACCEPT
    case 1 => [1, 1, 1, 1, 1, 1, 1, 1, 1, 1, 1, 1, 1, 1, 1, 1]  // 1 = REJECT
    case 2 => [1, 0, 1, 1, 1, 1, 1, 0, 1, 0, 1, 1, 1, 1, 1, 1]  // 2
    case 3 => [1, 2, 1, 1, 1, 1, 1, 2, 1, 2, 1, 1, 1, 1, 1, 1]  // 3
    case 4 => [1, 1, 1, 1, 1, 1, 1, 2, 1, 1, 1, 1, 1, 1, 1, 1]  // 4
    case 5 => [1, 2, 1, 1, 1, 1, 1, 1, 1, 2, 1, 1, 1, 1, 1, 1]  // 5
    case 6 => [1, 1, 1, 1, 1, 1, 1, 3, 1, 3, 1, 1, 1, 1, 1, 1]  // 6
    case 7 => [1, 3, 1, 1, 1, 1, 1, 3, 1, 3, 1, 1, 1, 1, 1, 1]  // 7
    case _ => [1, 3, 1, 1, 1, 1, 1, 1, 1, 1, 1, 1, 1, 1, 1, 1]  // 8
  }

  predicate IsState(q: int) { 0 <= q <= 8 }

  /** `utf8d[byte]` (u8strings.c:119), written by the ranges of byte
      values the table gives one class; ByteClassIsTable shows that this is
      the table lookup. Every class is at most 11, so `state * 16 + class`
      stays inside `utf8t` for every state (u8strings.c:124). */
  function ByteClass(b: int): (t: int)
    requires IsByte(b)
    ensures 0 <= t <= 11
  {
    if b < 0x80 then 0
    else if b < 0x90 then 1
    else if b < 0xA0 then 9
    else if b < 0xC0 then 7
    else if b < 0xC2 then 8
    else if b < 0xE0 then 2
    else if b == 0xE0 then 10
    else if b == 0xED then 4
    else if b < 0xF0 then 3
    else if b == 0xF0 then 11
    else if b < 0xF4 then 6
    else if b == 0xF4 then 5
    else 8
  }

  /** `utf8t[state * 16 + type]` (u8strings.c:124), written row by row by
      the classes that do not lead to REJECT; TransitionIsTable shows that
      this is the table lookup. Every entry is a state. */
  function Transition(q: int, t: int): (n: int)
    requires IsState(q) && 0 <= t <= 11
    ensures IsState(n)
  {
    match q
    case 0 =>
      if t == 0 then 0 else if t == 2 then 2 else if t == 3 then 3 else if t == 4 then 5
      else if t == 5 then 8 else if t == 6 then 7 else if t == 10 then 4 else if t == 11 then 6
      else 1
    case 2 => if t == 1 || t == 7 || t == 9 then 0 else 1
    case 3 => if t == 1 || t == 7 || t == 9 then 2 else 1
    case 4 => if t == 7 then 2 else 1
    case 5 => if t == 1 || t == 9 then 2 else 1
    case 6 => if t == 7 || t == 9 then 3 else 1
    case 7 => if t == 1 || t == 7 || t == 9 then 3 else 1
    case 8 => if t == 1 then 3 else 1
    case _ => 1
  }

  /** `ubyte & (0xFFU >> type)`, with `type` the byte's class: the payload
      bits of a lead byte (u8strings.c:120-122, 136). The mask keeps the
      bits below a power of two, and nothing from class 8 on. */
  function Seed(b: int, t: int): int
    requires IsByte(b) && 0 <= t <= 11
  {
    match t
    case 0 => b % 0x100
    case 1 => b % 0x80
    case 2 => b % 0x40
    case 3 => b % 0x20
    case 4 => b % 0x10
    case 5 => b % 0x08
    case 6 => b % 0x04
    case 7 => b % 0x02
    case _ => 0
  }

  /** `(ubyte & 0x3FU) | (codep << 6)` on a 32-bit `unsigned int`: six more
      bits from a tail byte (u8strings.c:123). */
  function Shift(codep: int, b: int): int
    requires IsByte(b)
  {
    (codep * 0x40 + b % 0x40) % 0x1_0000_0000
  }

  /** One decoding step (u8strings.c:119-124): the new state and the new
      accumulator. */
  function Step(q: int, codep: int, b: int): (r: (int, int))
    requires IsState(q) && IsByte(b)
    ensures IsState(r.0)
  {
    var t := ByteClass(b);
    (Transition(q, t), if q == ACCEPT then Seed(b, t) else Shift(codep, b))
  }

  /** The decoder run over `s` from its initial state (state ACCEPT,
      accumulator 0, u8strings.c:87-88). */
  function Run(s: seq<int>): (r: (int, int))
    requires IsBytes(s)
    ensures IsState(r.0)
  {
    if s == [] then (ACCEPT, 0)
    else var prev := Run(s[..|s| - 1]); Step(prev.0, prev.1, s[|s| - 1])
  }

  /** The state the decoder is in once it has read the partial character
      `p`: states 2, 3 and 7/6/8 await one, two and three more tail bytes,
      and 4, 5, 6 and 8 restrict the next tail byte's range. */
  function PendingState(p: seq<int>): int
    requires IsPartial(p)
  {
    if |p| == 1 then
      if p[0] <= 0xDF then 2
      else if p[0] == 0xE0 then 4
      else if p[0] == 0xED then 5
      else if p[0] <= 0xEF then 3
      else if p[0] == 0xF0 then 6
      else if p[0] <= 0xF3 then 7
      else 8
    else if |p| == 2 && p[0] <= 0xEF then 2
    else if |p| == 2 then 3
    else 2
  }

  /** The accumulator's value once the decoder has read the partial
      character `p`: the lead byte's payload bits, then six bits per tail
      byte. */
  function Payload(p: seq<int>): int
    requires IsPartial(p)
  {
    var lead := p[0] - (if p[0] <= 0xDF then 0xC0 else if p[0] <= 0xEF then 0xE0 else 0xF0);
    if |p| == 1 then lead
    else if |p| == 2 then lead * 0x40 + (p[1] - 0x80)
    else (lead * 0x40 + (p[1] - 0x80)) * 0x40 + (p[2] - 0x80)
  }

  /** From ACCEPT, one byte either is a whole character (ASCII), begins one
      (a lead byte, whose payload seeds the accumulator), or is rejected
      at once (a tail byte, 0xC0, 0xC1, 0xF5-0xFF). */
  lemma {:induction false} StartStep(b: int, codep: int)
    requires IsByte(b)
    ensures var r := Step(ACCEPT, codep, b);
      (IsChar([b]) ==> r.0 == ACCEPT && r.1 == Decode([b])) &&
      (IsPartial([b]) ==> r.0 == PendingState([b]) && r.1 == Payload([b])) &&
      (!IsChar([b]) && !IsPartial([b]) ==> r.0 == REJECT)
  {
    var t := ByteClass(b);
    ByteClassIs(b);
    StartRow(t);
    if IsChar([b]) || IsPartial([b]) {
      StartPayload(b, t);
    }
  }

  /** The lead byte's payload bits, as the class's mask selects them. */
  lemma {:induction false} StartPayload(b: int, t: int)
    requires IsByte(b) && ClassOf(b, t) && (IsChar([b]) || IsPartial([b]))
    ensures IsChar([b]) ==> Seed(b, t) == Decode([b])
    ensures IsPartial([b]) ==> Seed(b, t) == Payload([b])
  {
    if b < 0x80 {
      assert t == 0 && Seed(b, t) == b % 0x100 == b;
    } else {
      LeadPayload(b, t);
    }
  }

  lemma {:induction false} LeadPayload(b: int, t: int)
    requires 0xC2 <= b <= 0xF4 && ClassOf(b, t)
    ensures Seed(b, t) == b - (if b <= 0xDF then 0xC0 else if b <= 0xEF then 0xE0 else 0xF0)
  {
    if b <= 0xDF {
      assert t == 2 && Seed(b, t) == b % 0x40;
      assert b == 3 * 0x40 + (b - 0xC0);
    } else if b == 0xE0 || b == 0xF0 {
      assert t == 10 || t == 11;
    } else if b == 0xED {
      assert t == 4 && Seed(b, t) == b % 0x10;
      assert b == 14 * 0x10 + 0x0D;
    } else if b <= 0xEF {
      assert t == 3 && Seed(b, t) == b % 0x20;
      assert b == 7 * 0x20 + (b - 0xE0);
    } else if b == 0xF4 {
      assert t == 5 && Seed(b, t) == b % 0x08;
      assert b == 30 * 0x08 + 4;
    } else {
      assert t == 6 && Seed(b, t) == b % 0x04;
      assert b == 60 * 0x04 + (b - 0xF0);
    }
  }

  /** From the state reached after a partial character, the next byte
      completes it (and the accumulator holds the scalar value), extends
      it, or is rejected. */
  lemma {:induction false} ContinueStep(p: seq<int>, codep: int, b: int)
    requires IsPartial(p) && codep == Payload(p) && IsByte(b)
    ensures IsState(PendingState(p)) && PendingState(p) != ACCEPT
    ensures var r := Step(PendingState(p), codep, b);
      (IsChar(p + [b]) ==> r.0 == ACCEPT && r.1 == Decode(p + [b])) &&
      (IsPartial(p + [b]) ==> r.0 == PendingState(p + [b]) && r.1 == Payload(p + [b])) &&
      (!IsChar(p + [b]) && !IsPartial(p + [b]) ==> r.0 == REJECT)
  {
    ContinueState(p, b);
    if IsChar(p + [b]) || IsPartial(p + [b]) {
      ContinuePayload(p, b);
    }
  }

  /** The state part of ContinueStep: the transition table agrees with the
      grammar's choice of tail byte. */
  lemma {:induction false} ContinueState(p: seq<int>, b: int)
    requires IsPartial(p) && IsByte(b)
    ensures IsState(PendingState(p)) && PendingState(p) != ACCEPT
    ensures var n := Transition(PendingState(p), ByteClass(b));
      (IsChar(p + [b]) ==> n == ACCEPT) &&
      (IsPartial(p + [b]) ==> n == PendingState(p + [b])) &&
      (!IsChar(p + [b]) && !IsPartial(p + [b]) ==> n == REJECT)
  {
    var t := ByteClass(b);
    var n := Transition(PendingState(p), t);
    ByteClassIs(b);
    PendingRow(PendingState(p), t);
    if |p| == 1 {
      ContinueAfterLead(p, b, t, n);
    } else if |p| == 2 {
      ContinueAfterTwo(p, b, t, n);
    } else {
      ContinueAfterThree(p, b, t, n);
    }
  }

  /** The payload part of ContinueStep: six more bits from a tail byte. */
  lemma {:induction false} ContinuePayload(p: seq<int>, b: int)
    requires IsPartial(p) && IsByte(b) && (IsChar(p + [b]) || IsPartial(p + [b]))
    ensures IsChar(p + [b]) ==> Shift(Payload(p), b) == Decode(p + [b])
    ensures IsPartial(p + [b]) ==> Shift(Payload(p), b) == Payload(p + [b])
  {
    var s := p + [b];
    assert s[|p|] == b && s[0] == p[0];
    assert IsTail(b);
    assert 0 <= Payload(p) < 0x4_0000;
    assert Shift(Payload(p), b) == Payload(p) * 0x40 + (b - 0x80);
  }

  lemma {:induction false} ContinueAfterLead(p: seq<int>, b: int, t: int, n: int)
    requires IsPartial(p) && |p| == 1 && IsByte(b)
    requires ClassOf(b, t) && PendingMove(PendingState(p), t, n)
    ensures IsChar(p + [b]) ==> n == ACCEPT
    ensures IsPartial(p + [b]) ==> n == PendingState(p + [b])
    ensures !IsChar(p + [b]) && !IsPartial(p + [b]) ==> n == REJECT
  {
  }

  lemma {:induction false} ContinueAfterTwo(p: seq<int>, b: int, t: int, n: int)
    requires IsPartial(p) && |p| == 2 && IsByte(b)
    requires ClassOf(b, t) && PendingMove(PendingState(p), t, n)
    ensures IsChar(p + [b]) ==> n == ACCEPT
    ensures IsPartial(p + [b]) ==> n == PendingState(p + [b])
    ensures !IsChar(p + [b]) && !IsPartial(p + [b]) ==> n == REJECT
  {
  }

  lemma {:induction false} ContinueAfterThree(p: seq<int>, b: int, t: int, n: int)
    requires IsPartial(p) && |p| == 3 && IsByte(b)
    requires ClassOf(b, t) && PendingMove(PendingState(p), t, n)
    ensures IsChar(p + [b]) ==> n == ACCEPT
    ensures IsPartial(p + [b]) ==> n == PendingState(p + [b])
    ensures !IsChar(p + [b]) && !IsPartial(p + [b]) ==> n == REJECT
  {
  }

  /** Read from ACCEPT, a sequence whose every byte but the last continued a
      character ends the way its last byte decides: in ACCEPT with the
      scalar value if it is a whole character, in PendingState if it is
      still partial, in REJECT otherwise. */
  lemma {:induction false} Decodes(s: seq<int>)
    requires IsBytes(s) && |s| >= 1
    requires |s| == 1 || IsPartial(s[..|s| - 1])
    ensures IsChar(s) ==> Run(s).0 == ACCEPT && Run(s).1 == Decode(s)
    ensures IsPartial(s) ==> Run(s).0 == PendingState(s) && Run(s).1 == Payload(s)
    ensures !IsChar(s) && !IsPartial(s) ==> Run(s).0 == REJECT
  {
    var p, b := s[..|s| - 1], s[|s| - 1];
    assert s == p + [b];
    if |s| == 1 {
      assert p == [];
      StartStep(b, 0);
    } else {
      if |p| > 1 {
        PartialPrefix(p, |p| - 1);
      }
      Decodes(p);
      ContinueStep(p, Run(p).1, b);
    }
  }

  /** The decoder's state after the first k bytes of s. */
  function StateAfter(s: seq<int>, k: int): int
    requires IsBytes(s) && 0 <= k <= |s|
  {
    Run(s[..k]).0
  }

  /** Starting from ACCEPT, the decoder first comes back to ACCEPT exactly
      at the end of one well-formed sequence, and the accumulator then holds
      that sequence's scalar value. */
  lemma {:induction false} ReturnsToAccept(s: seq<int>)
    requires IsBytes(s) && |s| >= 1
    ensures (Run(s).0 == ACCEPT && forall k | 1 <= k < |s| :: StateAfter(s, k) != ACCEPT) <==> IsChar(s)
    ensures IsChar(s) ==> Run(s).1 == Decode(s)
  {
    if IsChar(s) {
      CharRunsToAccept(s);
    } else if Run(s).0 == ACCEPT && forall k | 1 <= k < |s| :: StateAfter(s, k) != ACCEPT {
      FirstAcceptIsChar(s);
    }
  }

  /** A sequence on whose last byte the decoder first comes back to ACCEPT
      is a character. */
  lemma {:induction false} FirstAcceptIsChar(s: seq<int>)
    requires IsBytes(s) && |s| >= 1
    requires Run(s).0 == ACCEPT && forall k | 1 <= k < |s| :: StateAfter(s, k) != ACCEPT
    ensures IsChar(s)
  {
    PrefixesArePartial(s, |s|);
    AcceptIsChar(s);
  }

  /** A sequence that continues a character up to its last byte, and after
      which the decoder is in ACCEPT, is a character. */
  lemma {:induction false} AcceptIsChar(s: seq<int>)
    requires IsBytes(s) && |s| >= 1 && (|s| == 1 || IsPartial(s[..|s| - 1]))
    requires Run(s).0 == ACCEPT
    ensures IsChar(s)
  {
    Decodes(s);
  }

  /** Reading a character, the decoder stays away from ACCEPT until its last
      byte, and then holds the character's scalar value. */
  lemma {:induction false} CharRunsToAccept(s: seq<int>)
    requires IsBytes(s) && IsChar(s)
    ensures forall k | 1 <= k < |s| :: StateAfter(s, k) != ACCEPT
    ensures Run(s).0 == ACCEPT && Run(s).1 == Decode(s)
  {
    CharIsBytes(s);
    forall k | 1 <= k < |s|
      ensures StateAfter(s, k) != ACCEPT
    {
      CharPrefixPending(s, k);
    }
    CharRunsWhole(s);
  }

  lemma {:induction false} CharRunsWhole(s: seq<int>)
    requires IsChar(s)
    ensures IsBytes(s) && Run(s).0 == ACCEPT && Run(s).1 == Decode(s)
  {
    CharIsBytes(s);
    if |s| > 1 {
      CharPrefix(s, |s| - 1);
    }
    Decodes(s);
  }

  lemma {:induction false} CharPrefixPending(s: seq<int>, k: int)
    requires IsChar(s) && 1 <= k < |s|
    ensures StateAfter(s, k) != ACCEPT
  {
    CharIsBytes(s);
    var p := s[..k];
    CharPrefix(s, k);
    if k > 1 {
      CharPrefix(s, k - 1);
      assert p[..k - 1] == s[..k - 1];
    }
    Decodes(p);
  }

  /** A sequence that reaches ACCEPT only at its end has only partial proper
      prefixes. */
  lemma {:induction false} PrefixesArePartial(s: seq<int>, k: int)
    requires IsBytes(s) && 1 <= k <= |s|
    requires Run(s).0 == ACCEPT && forall j | 1 <= j < |s| :: StateAfter(s, j) != ACCEPT
    ensures k == 1 || IsPartial(s[..k - 1])
  {
    if k > 1 {
      PrefixesArePartial(s, k - 1);
      var p := s[..k - 1];
      if k - 1 > 1 {
        assert p[..k - 2] == s[..k - 2];
      }
      assert StateAfter(s, k - 1) != ACCEPT;
      if Run(p).0 == REJECT {
        RejectPersists(s, k - 1);
      }
      PendingIsPartial(p);
    }
  }

  /** A sequence that continues a character up to its last byte, and after
      which the decoder is neither in ACCEPT nor in REJECT, is partial. */
  lemma {:induction false} PendingIsPartial(p: seq<int>)
    requires IsBytes(p) && |p| >= 1 && (|p| == 1 || IsPartial(p[..|p| - 1]))
    requires Run(p).0 != ACCEPT && Run(p).0 != REJECT
    ensures IsPartial(p)
  {
    Decodes(p);
  }

  /** The accumulator of a partial character has at most 15 bits: five
      payload bits of a lead byte and six of a tail byte, or three of a
      four-byte lead and twelve of two tail bytes. */
  lemma {:induction false} PayloadBound(p: seq<int>)
    requires IsPartial(p)
    ensures 0 <= Payload(p) < 0x8000
  {
    if |p| >= 2 {
      assert 0x80 <= p[1] <= 0xBF;
    }
    if |p| == 3 {
      assert 0xF0 <= p[0] <= 0xF4;
    }
  }

  /** Whenever the decoder shifts (u8strings.c:123), that is in a state
      awaiting a tail byte, the accumulator is below 2^16: the shift by six
      loses no bit, Shift's reduction modulo 2^32 never applies, and
      ShiftIsBitOr covers it. */
  lemma {:induction false} PendingCodepBound(s: seq<int>, b: int)
    requires IsBytes(s) && |s| >= 1 && (|s| == 1 || IsPartial(s[..|s| - 1]))
    requires Run(s).0 != ACCEPT && Run(s).0 != REJECT && IsByte(b)
    ensures 0 <= Run(s).1 < 0x10000
    ensures Shift(Run(s).1, b) == Run(s).1 * 0x40 + b % 0x40
  {
    Decodes(s);
    PayloadBound(s);
    ShiftNoWrap(Run(s).1, b);
  }

  /** REJECT is absorbing: once reached, no byte leaves it. */
  lemma {:induction false} RejectPersists(s: seq<int>, k: int)
    requires IsBytes(s) && 0 <= k <= |s| && Run(s[..k]).0 == REJECT
    ensures Run(s).0 == REJECT
    decreases |s| - k
  {
    if k < |s| {
      assert s[..k + 1][..k] == s[..k];
      RejectIsAbsorbing(ByteClass(s[k]));
      RejectPersists(s, k + 1);
    } else {
      assert s[..k] == s;
    }
  }

  /** From ACCEPT, a tail byte or a byte that no character can begin with
      (0xC0, 0xC1, 0xF5-0xFF) is rejected at once: it never starts a
      character. */
  lemma {:induction false} StartRejects(b: int, codep: int)
    requires IsByte(b) && (0x80 <= b <= 0xC1 || 0xF5 <= b)
    ensures Step(ACCEPT, codep, b).0 == REJECT
  {
    StartStep(b, codep);
  }

  /** At most this many bytes of the current character have been read in
      state q: four minus the tail bytes the state still awaits. */
  function PendingBound(q: int): int
    requires IsState(q)
  {
    [0, 0, 3, 2, 2, 2, 1, 1, 1][q]
  }

  /** Every transition between two intermediate states consumes one of the
      at most four bytes of a character. */
  lemma {:induction false} PendingGrows(q: int, t: int)
    requires IsState(q) && q != REJECT && 0 <= t <= 11
    ensures var n := Transition(q, t);
      n != ACCEPT && n != REJECT ==> PendingBound(q) + 1 <= PendingBound(n) <= 3
  {
    if q == ACCEPT {
      StartRow(t);
    } else {
      PendingRow(q, t);
    }
  }

  // ---------------------------------------------------------------------
  // The tables

  /** The byte classes: 0 for ASCII, 1 / 9 / 7 for the three tail ranges the
      second byte of E0, ED, F0 and F4 sequences is restricted to, 8 for
      bytes that never begin a character, and one class per kind of lead. */
  lemma {:induction false} ByteClassRanges(b: int)
    requires IsByte(b)
    ensures ClassOf(b, Utf8dRow(b / 16)[b % 16])
  {
    if b < 0x80 {
      AsciiRows(b);
    } else if b < 0xC0 {
      TailRows(b);
    } else {
      LeadRows(b);
    }
  }

  lemma {:induction false} AsciiRows(b: int)
    requires 0x00 <= b <= 0x7F
    ensures Utf8dRow(b / 16)[b % 16] == 0
  {
    var r := b / 16;
    assert 0 <= r < 8;
  }

  lemma {:induction false} TailRows(b: int)
    requires 0x80 <= b <= 0xBF
    ensures ClassOf(b, Utf8dRow(b / 16)[b % 16])
  {
    if b < 0x90 {
      assert b / 16 == 8 && b % 16 == b - 0x80;
    } else if b < 0xA0 {
      assert b / 16 == 9 && b % 16 == b - 0x90;
    } else if b < 0xB0 {
      assert b / 16 == 10 && b % 16 == b - 0xA0;
    } else {
      assert b / 16 == 11 && b % 16 == b - 0xB0;
    }
  }

  lemma {:induction false} LeadRows(b: int)
    requires 0xC0 <= b <= 0xFF
    ensures ClassOf(b, Utf8dRow(b / 16)[b % 16])
  {
    if b < 0xE0 {
      TwoByteLeadRows(b);
    } else if b < 0xF0 {
      ThreeByteLeadRow(b);
    } else {
      FourByteLeadRow(b);
    }
  }

  lemma {:induction false} TwoByteLeadRows(b: int)
    requires 0xC0 <= b <= 0xDF
    ensures ClassOf(b, Utf8dRow(b / 16)[b % 16])
  {
    var r := b / 16;
    assert b == 16 * r + b % 16;
    assert r == 12 || r == 13;
  }

  lemma {:induction false} ThreeByteLeadRow(b: int)
    requires 0xE0 <= b <= 0xEF
    ensures ClassOf(b, Utf8dRow(b / 16)[b % 16])
  {
    assert b / 16 == 14 && b % 16 == b - 0xE0;
  }

  lemma {:induction false} FourByteLeadRow(b: int)
    requires 0xF0 <= b <= 0xFF
    ensures ClassOf(b, Utf8dRow(b / 16)[b % 16])
  {
    assert b / 16 == 15 && b % 16 == b - 0xF0;
  }

  /** The class of every byte, by range. */
  predicate ClassOf(b: int, t: int) {
    (0x00 <= b <= 0x7F ==> t == 0) &&
    (0x80 <= b <= 0x8F ==> t == 1) &&
    (0x90 <= b <= 0x9F ==> t == 9) &&
    (0xA0 <= b <= 0xBF ==> t == 7) &&
    ((0xC0 <= b <= 0xC1 || 0xF5 <= b) ==> t == 8) &&
    (0xC2 <= b <= 0xDF ==> t == 2) &&
    ((0xE1 <= b <= 0xEC || 0xEE <= b <= 0xEF) ==> t == 3) &&
    (b == 0xE0 ==> t == 10) &&
    (b == 0xED ==> t == 4) &&
    (b == 0xF0 ==> t == 11) &&
    (0xF1 <= b <= 0xF3 ==> t == 6) &&
    (b == 0xF4 ==> t == 5)
  }

  /** ByteClass has the classes ClassOf gives. */
  lemma {:induction false} ByteClassIs(b: int)
    requires IsByte(b)
    ensures ClassOf(b, ByteClass(b))
  {
  }

  /** ByteClass is the lookup `utf8d[byte]`. */
  lemma {:induction false} ByteClassIsTable(b: int)
    requires IsByte(b)
    ensures ByteClass(b) == Utf8dRow(b / 16)[b % 16]
  {
    ByteClassRanges(b);
  }

  /** Transition is the lookup `utf8t[state * 16 + type]`. */
  lemma {:induction false} TransitionIsTable(q: int, t: int)
    requires IsState(q) && 0 <= t <= 11
    ensures Transition(q, t) == Utf8tRow(q)[t]
  {
    if q < 3 {
      TransitionRows012(q, t);
    } else if q < 6 {
      TransitionRows345(q, t);
    } else {
      TransitionRows678(q, t);
    }
  }

  lemma {:induction false} TransitionRows012(q: int, t: int)
    requires 0 <= q < 3 && 0 <= t <= 11
    ensures Transition(q, t) == Utf8tRow(q)[t]
  {
  }

  lemma {:induction false} TransitionRows345(q: int, t: int)
    requires 3 <= q < 6 && 0 <= t <= 11
    ensures Transition(q, t) == Utf8tRow(q)[t]
  {
  }

  lemma {:induction false} TransitionRows678(q: int, t: int)
    requires 6 <= q < 9 && 0 <= t <= 11
    ensures Transition(q, t) == Utf8tRow(q)[t]
  {
  }

  /** Row 1 of `utf8t`: REJECT leads to REJECT. */
  lemma {:induction false} RejectIsAbsorbing(t: int)
    requires 0 <= t <= 11
    ensures Transition(REJECT, t) == REJECT
  {
  }

  /** Where each class leads from ACCEPT (row 0 of `utf8t`). */
  lemma {:induction false} StartRow(t: int)
    requires 0 <= t <= 11
    ensures Transition(ACCEPT, t) == [0, 1, 2, 3, 5, 8, 7, 1, 1, 1, 4, 6][t]
  {
  }

  /** The rows of the states that await a tail byte: only the tail classes
      1 (0x80-0x8F), 9 (0x90-0x9F) and 7 (0xA0-0xBF) can continue, and which
      of them do depends on the state. */
  lemma {:induction false} PendingRow(q: int, t: int)
    requires 2 <= q <= 8 && 0 <= t <= 11
    ensures PendingMove(q, t, Transition(q, t))
  {
  }

  /** Where a state that awaits a tail byte goes on class t. */
  predicate PendingMove(q: int, t: int, n: int) {
    n ==
      if q == 2 && (t == 1 || t == 9 || t == 7) then ACCEPT
      else if q == 3 && (t == 1 || t == 9 || t == 7) then 2
      else if q == 4 && t == 7 then 2
      else if q == 5 && (t == 1 || t == 9) then 2
      else if q == 6 && (t == 9 || t == 7) then 3
      else if q == 7 && (t == 1 || t == 9 || t == 7) then 3
      else if q == 8 && t == 1 then 3
      else REJECT
  }

  /** The arithmetic Seed is the C expression `ubyte & (0xFFU >> type)`. */
  lemma {:induction false} SeedIsBitAnd(ub: bv32, t: int)
    requires ub < 256 && 0 <= t <= 11
    ensures (ub & (0xFF >> t)) as int == Seed(ub as int, t)
  {
    if t < 4 {
      SeedWideMask(ub, t);
    } else {
      SeedNarrowMask(ub, t);
    }
  }

  lemma {:induction false} SeedWideMask(ub: bv32, t: int)
    requires ub < 256 && 0 <= t < 4
    ensures (ub & (0xFF >> t)) as int == Seed(ub as int, t)
  {
    if t == 0 {
      assert 0xFF >> t == 0xFF as bv32;
      Low8(ub);
    } else if t == 1 {
      assert 0xFF >> t == 0x7F as bv32;
      Low7(ub);
    } else if t == 2 {
      assert 0xFF >> t == 0x3F as bv32;
      Low6(ub);
    } else {
      assert 0xFF >> t == 0x1F as bv32;
      Low5(ub);
    }
  }

  lemma {:induction false} SeedNarrowMask(ub: bv32, t: int)
    requires ub < 256 && 4 <= t <= 11
    ensures (ub & (0xFF >> t)) as int == Seed(ub as int, t)
  {
    if t == 4 {
      assert 0xFF >> t == 0x0F as bv32;
      Low4(ub);
    } else if t == 5 {
      assert 0xFF >> t == 0x07 as bv32;
      Low3(ub);
    } else if t == 6 {
      assert 0xFF >> t == 0x03 as bv32;
      Low2(ub);
    } else if t == 7 {
      assert 0xFF >> t == 0x01 as bv32;
      Low1(ub);
    } else {
      assert 0xFF >> t == 0 as bv32;
    }
  }

  /** The arithmetic Shift is the C expression `(ubyte & 0x3FU) | (codep << 6)`
      whenever the shift loses no bits, which the decoder guarantees: it
      shifts only an accumulator below 2^16 (PendingCodepBound). */
  lemma {:induction false} ShiftIsBitOr(ub: bv32, codep: bv32)
    requires ub < 256 && codep < 0x400_0000
    ensures ((ub & 0x3F) | (codep << 6)) as int == Shift(codep as int, ub as int)
  {
    ShiftBits(ub, codep);
    ShiftNoWrap(codep as int, ub as int);
  }

  lemma {:induction false} ShiftNoWrap(c: int, b: int)
    requires 0 <= c < 0x400_0000 && IsByte(b)
    ensures Shift(c, b) == c * 0x40 + b % 0x40
  {
  }

  lemma {:induction false} ShiftBits(ub: bv32, codep: bv32)
    requires ub < 256 && codep < 0x400_0000
    ensures ((ub & 0x3F) | (codep << 6)) as int == codep as int * 0x40 + ub as int % 0x40
  {
  }

  lemma {:induction false} Low8(ub: bv32) requires ub < 256 ensures (ub & 0xFF) as int == ub as int % 0x100 {}
  lemma {:induction false} Low7(ub: bv32) requires ub < 256 ensures (ub & 0x7F) as int == ub as int % 0x80 {}
  lemma {:induction false} Low6(ub: bv32) requires ub < 256 ensures (ub & 0x3F) as int == ub as int % 0x40 {}
  lemma {:induction false} Low5(ub: bv32) requires ub < 256 ensures (ub & 0x1F) as int == ub as int % 0x20 {}
  lemma {:induction false} Low4(ub: bv32) requires ub < 256 ensures (ub & 0x0F) as int == ub as int % 0x10 {}
  lemma {:induction false} Low3(ub: bv32) requires ub < 256 ensures (ub & 0x07) as int == ub as int % 0x08 {}
  lemma {:induction false} Low2(ub: bv32) requires ub < 256 ensures (ub & 0x03) as int == ub as int % 0x04 {}
  lemma {:induction false} Low1(ub: bv32) requires ub < 256 ensures (ub & 0x01) as int == ub as int % 0x02 {}
}
