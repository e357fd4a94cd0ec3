/** Concrete inputs on which the two extractors are compared, each with
    the scanner's state after every byte: where they agree, and where they
    differ (a refused byte that could begin a character, and the newline
    of a run that reaches the end of input). */
module Scenarios {
  import opened Dfa
  import opened Printable
  import opened Runs
  import opened Scanners
  import opened Utf8
  import U8 = U8Strings
  import Utf8S = Utf8Strings

  // ---------------------------------------------------------------------
  // One byte at a time

  /** A printable ASCII byte read in ACCEPT is a character of its own. */
  lemma {:induction false} AsciiStep(b: int, c: int)
    requires 0x20 <= b < 0x7F
    ensures Step(ACCEPT, c, b) == (ACCEPT, b) && IsPrintable(b)
  {
  }

  /** Below the limit, a printable ASCII byte is buffered and counted. */
  lemma {:induction false} AsciiStored(c: int, buf: seq<int>, n: nat, newRun: bool, o: nat, b: int, limit: nat)
    requires 0x20 <= b < 0x7F && n + 1 < limit
    ensures U8.Feed(Scanner(ACCEPT, c, buf, n, newRun, o), b, limit, true)
      == (Scanner(ACCEPT, b, buf + [b], n + 1, newRun, o + 1), [])
    ensures Utf8S.Feed(Scanner(ACCEPT, c, buf, n, newRun, o), b, limit, true)
      == (Scanner(ACCEPT, b, buf + [b], n + 1, newRun, o + 1), [])
  {
    AsciiStep(b, c);
    U8.FeedKeeps(Scanner(ACCEPT, c, buf, n, newRun, o), b, limit, true);
    Utf8S.FeedKeeps(Scanner(ACCEPT, c, buf, n, newRun, o), b, limit, true);
  }

  /** The printable ASCII byte that brings a new run to the limit prints
      the offset of the run's first byte and the whole run. */
  lemma {:induction false} AsciiOpensRun(c: int, buf: seq<int>, n: nat, o: nat, b: int, limit: nat)
    requires 0x20 <= b < 0x7F && n + 1 == limit && |buf| <= o
    ensures U8.Feed(Scanner(ACCEPT, c, buf, n, true, o), b, limit, true)
      == (Scanner(ACCEPT, b, [], limit, false, o + 1), [Tag(o - |buf|), Bytes(buf + [b])])
    ensures Utf8S.Feed(Scanner(ACCEPT, c, buf, n, true, o), b, limit, true)
      == (Scanner(ACCEPT, b, [], limit, false, o + 1), [Tag(o - |buf|), Bytes(buf + [b])])
  {
    AsciiStep(b, c);
    U8.FeedKeeps(Scanner(ACCEPT, c, buf, n, true, o), b, limit, true);
    Utf8S.FeedKeeps(Scanner(ACCEPT, c, buf, n, true, o), b, limit, true);
    assert [Tag(o - |buf|)] + [Bytes(buf + [b])] == [Tag(o - |buf|), Bytes(buf + [b])];
  }

  /** Past the limit, a printable ASCII byte is printed at once. */
  lemma {:induction false} AsciiExtendsRun(c: int, o: nat, b: int, limit: nat)
    requires 0x20 <= b < 0x7F
    ensures U8.Feed(Scanner(ACCEPT, c, [], limit, false, o), b, limit, true)
      == (Scanner(ACCEPT, b, [], limit, false, o + 1), [Bytes([b])])
    ensures Utf8S.Feed(Scanner(ACCEPT, c, [], limit, false, o), b, limit, true)
      == (Scanner(ACCEPT, b, [], limit, false, o + 1), [Bytes([b])])
  {
    AsciiStep(b, c);
    U8.FeedKeeps(Scanner(ACCEPT, c, [], limit, false, o), b, limit, true);
    Utf8S.FeedKeeps(Scanner(ACCEPT, c, [], limit, false, o), b, limit, true);
    var none: seq<Event> := [];
    assert [] + [b] == [b] && none + [Bytes([b])] == [Bytes([b])];
  }

  /** NUL, a complete character that is not printable, ends the run, with
      a newline if it was printed, and leaves an empty scanner. */
  lemma {:induction false} NulEndsRun(c: int, buf: seq<int>, n: nat, newRun: bool, o: nat, limit: nat)
    ensures U8.Feed(Scanner(ACCEPT, c, buf, n, newRun, o), 0x00, limit, true)
      == (Scanner(ACCEPT, 0x00, [], 0, true, o + 1), if n >= limit then [Newline] else [])
    ensures Utf8S.Feed(Scanner(ACCEPT, c, buf, n, newRun, o), 0x00, limit, true)
      == (Scanner(ACCEPT, 0x00, [], 0, true, o + 1), if n >= limit then [Newline] else [])
  {
    U8.FeedRestarts(Scanner(ACCEPT, c, buf, n, newRun, o), 0x00, limit, true);
    Utf8S.FeedDrops(Scanner(ACCEPT, c, buf, n, newRun, o), 0x00, limit, true);
    var none: seq<Event> := [];
    assert none + none == none && [Newline] + none == [Newline];
  }

  /** 0xFF never begins a character: it is dropped by both, and the
      scanner stays empty. */
  lemma {:induction false} StrayByte(o: nat, limit: nat)
    requires limit >= 1
    ensures U8.Feed(Scanner(ACCEPT, 0, [], 0, true, o), 0xFF, limit, true)
      == (Scanner(ACCEPT, 0, [], 0, true, o + 1), [])
    ensures Utf8S.Feed(Scanner(ACCEPT, 0, [], 0, true, o), 0xFF, limit, true)
      == (Scanner(ACCEPT, 0, [], 0, true, o + 1), [])
  {
    var none: seq<Event> := [];
    assert none + none == none;
  }

  /** A lead byte is buffered, and the decoder waits for its tail bytes. */
  lemma {:induction false} LeadBuffered(b: int, state: int, codep: int)
    requires (b, state, codep) in {(0xC3, 2, 0x03), (0xC2, 2, 0x02), (0xE2, 3, 0x02)}
    ensures U8.Feed(Init, b, 1, false) == (Scanner(state, codep, [b], 0, true, 0), [])
    ensures Utf8S.Feed(Init, b, 1, false) == (Scanner(state, codep, [b], 0, true, 0), [])
  {
    assert [] + [b] == [b];
  }

  /** A9 completes C3 A9, U+00E9, which is printed as one character. */
  lemma {:induction false} TailCompletes()
    ensures U8.Feed(Scanner(2, 0x03, [0xC3], 0, true, 0), 0xA9, 1, false)
      == (Scanner(ACCEPT, 0xE9, [], 1, false, 0), [Bytes([0xC3, 0xA9])])
    ensures Utf8S.Feed(Scanner(2, 0x03, [0xC3], 0, true, 0), 0xA9, 1, false)
      == (Scanner(ACCEPT, 0xE9, [], 1, false, 0), [Bytes([0xC3, 0xA9])])
  {
    assert [0xC3] + [0xA9] == [0xC3, 0xA9] && [] + [Bytes([0xC3, 0xA9])] == [Bytes([0xC3, 0xA9])];
  }

  /** "(" after C3 is refused; u8strings reads it again as a character of
      its own, utf8strings drops it. */
  lemma {:induction false} ParenAfterLead()
    ensures U8.Feed(Scanner(2, 0x03, [0xC3], 0, true, 0), 0x28, 1, false)
      == (Scanner(ACCEPT, 0x28, [], 1, false, 0), [Bytes([0x28])])
    ensures Utf8S.Feed(Scanner(2, 0x03, [0xC3], 0, true, 0), 0x28, 1, false)
      == (Scanner(ACCEPT, 0xE8, [], 0, true, 0), [])
  {
    assert [] + [0x28] == [0x28] && [] + [Bytes([0x28])] == [Bytes([0x28])];
  }

  /** 85 completes C2 85, U+0085, which is not printable. */
  lemma {:induction false} ControlRefused()
    ensures U8.Feed(Scanner(2, 0x02, [0xC2], 0, true, 0), 0x85, 1, false)
      == (Scanner(ACCEPT, 0x05, [], 0, true, 0), [])
    ensures Utf8S.Feed(Scanner(2, 0x02, [0xC2], 0, true, 0), 0x85, 1, false)
      == (Scanner(ACCEPT, 0x85, [], 0, true, 0), [])
  {
    var none: seq<Event> := [];
    assert none + none == none;
  }

  // ---------------------------------------------------------------------
  // Whole inputs

  /** "a", NUL, "b" with a limit of 1 and offsets: each letter is a run
      tagged with the offset of its byte; the NUL ends the first run with a
      newline, and the end of input ends the second. */
  lemma {:induction false} TaggedRunsU8()
    ensures U8.Extract([0x61, 0x00, 0x62], 1, true) == [Tag(0), Bytes([0x61]), Newline, Tag(2), Bytes([0x62]), Newline]
  {
    var s := [0x61, 0x00, 0x62];
    assert [] + [0x61] == [0x61] && [] + [0x62] == [0x62];
    AsciiOpensRun(0, [], 0, 0, 0x61, 1);
    U8.OutStep(Init, s, 0, 1, true);
    NulEndsRun(0x61, [], 1, false, 1, 1);
    U8.OutStep(Scanner(ACCEPT, 0x61, [], 1, false, 1), s, 1, 1, true);
    AsciiOpensRun(0, [], 0, 2, 0x62, 1);
    U8.OutStep(Scanner(ACCEPT, 0x00, [], 0, true, 2), s, 2, 1, true);
  }

  /** The same in utf8strings: the second run is not ended at the end of
      input. */
  lemma {:induction false} TaggedRunsUtf8()
    ensures Utf8S.Extract([0x61, 0x00, 0x62], 1, true) == [Tag(0), Bytes([0x61]), Newline, Tag(2), Bytes([0x62])]
  {
    var s := [0x61, 0x00, 0x62];
    assert [] + [0x61] == [0x61] && [] + [0x62] == [0x62];
    AsciiOpensRun(0, [], 0, 0, 0x61, 1);
    Utf8S.OutStep(Init, s, 0, 1, true);
    NulEndsRun(0x61, [], 1, false, 1, 1);
    Utf8S.OutStep(Scanner(ACCEPT, 0x61, [], 1, false, 1), s, 1, 1, true);
    AsciiOpensRun(0, [], 0, 2, 0x62, 1);
    Utf8S.OutStep(Scanner(ACCEPT, 0x00, [], 0, true, 2), s, 2, 1, true);
  }

  /** C3 28, the lead byte of a two-byte character followed by "(": the
      "(" is refused as a tail byte, and u8strings reads it again and
      prints it as a run of one character. */
  lemma {:induction false} LeadThenParenU8()
    ensures U8.Extract([0xC3, 0x28], 1, false) == [Bytes([0x28]), Newline]
  {
    var s := [0xC3, 0x28];
    LeadBuffered(0xC3, 2, 0x03);
    U8.OutStep(Init, s, 0, 1, false);
    ParenAfterLead();
    U8.OutStep(Scanner(2, 0x03, [0xC3], 0, true, 0), s, 1, 1, false);
  }

  /** utf8strings drops the "(" together with the lead byte. */
  lemma {:induction false} LeadThenParenUtf8()
    ensures Utf8S.Extract([0xC3, 0x28], 1, false) == []
  {
    var s := [0xC3, 0x28];
    LeadBuffered(0xC3, 2, 0x03);
    Utf8S.OutStep(Init, s, 0, 1, false);
    ParenAfterLead();
    Utf8S.OutStep(Scanner(2, 0x03, [0xC3], 0, true, 0), s, 1, 1, false);
  }

  /** A lone E2, the first byte of a three-byte character, prints nothing
      in either extractor. */
  lemma {:induction false} LoneLead()
    ensures U8.Extract([0xE2], 1, false) == []
    ensures Utf8S.Extract([0xE2], 1, false) == []
  {
    LeadBuffered(0xE2, 3, 0x02);
    U8.OutStep(Init, [0xE2], 0, 1, false);
    Utf8S.OutStep(Init, [0xE2], 0, 1, false);
  }

  /** A two-byte character (U+00E9, C3 A9) is one character, written as
      its two bytes; u8strings ends the run at the end of input. */
  lemma {:induction false} TwoByteCharacter()
    ensures U8.Extract([0xC3, 0xA9], 1, false) == [Bytes([0xC3, 0xA9]), Newline]
    ensures Utf8S.Extract([0xC3, 0xA9], 1, false) == [Bytes([0xC3, 0xA9])]
  {
    var s := [0xC3, 0xA9];
    LeadBuffered(0xC3, 2, 0x03);
    TailCompletes();
    U8.OutStep(Init, s, 0, 1, false);
    U8.OutStep(Scanner(2, 0x03, [0xC3], 0, true, 0), s, 1, 1, false);
    Utf8S.OutStep(Init, s, 0, 1, false);
    Utf8S.OutStep(Scanner(2, 0x03, [0xC3], 0, true, 0), s, 1, 1, false);
  }

  /** U+0085 (C2 85), a C1 control, is refused by both; u8strings reads
      its second byte again, which begins no character, so the decoder is
      reset. */
  lemma {:induction false} ControlCharacter()
    ensures U8.Extract([0xC2, 0x85], 1, false) == []
    ensures Utf8S.Extract([0xC2, 0x85], 1, false) == []
  {
    var s := [0xC2, 0x85];
    LeadBuffered(0xC2, 2, 0x02);
    ControlRefused();
    U8.OutStep(Init, s, 0, 1, false);
    U8.OutStep(Scanner(2, 0x02, [0xC2], 0, true, 0), s, 1, 1, false);
    Utf8S.OutStep(Init, s, 0, 1, false);
    Utf8S.OutStep(Scanner(2, 0x02, [0xC2], 0, true, 0), s, 1, 1, false);
  }

  // ---------------------------------------------------------------------
  // "Hello", three NULs, "World" with a limit of 4 and offsets

  const Hello: seq<int> := [0x48, 0x65, 0x6C, 0x6C, 0x6F, 0x00, 0x00, 0x00, 0x57, 0x6F, 0x72, 0x6C, 0x64]

  /** The bytes of the input, one by one. */
  lemma {:induction false} HelloBytes()
    ensures IsBytes(Hello) && |Hello| == 13
    ensures Hello[0] == 0x48 && Hello[1] == 0x65 && Hello[2] == 0x6C && Hello[3] == 0x6C && Hello[4] == 0x6F
    ensures Hello[5] == 0x00 && Hello[6] == 0x00 && Hello[7] == 0x00
    ensures Hello[8] == 0x57 && Hello[9] == 0x6F && Hello[10] == 0x72 && Hello[11] == 0x6C && Hello[12] == 0x64
  {
  }

  /** "Hello": the fourth letter prints the tag 0 and "Hell", the fifth
      prints "o". */
  lemma {:induction false} HelloFirstRunU8(s: seq<int>)
    requires IsBytes(s) && |s| >= 5
    requires s[0] == 0x48 && s[1] == 0x65 && s[2] == 0x6C && s[3] == 0x6C && s[4] == 0x6F
    ensures U8.Out(Init, s, 0, 4, true)
      == [Tag(0), Bytes([0x48, 0x65, 0x6C, 0x6C]), Bytes([0x6F])] + U8.Out(Scanner(ACCEPT, 0x6F, [], 4, false, 5), s, 5, 4, true)
  {
    assert [] + [0x48] == [0x48] && [0x48] + [0x65] == [0x48, 0x65] && [0x48, 0x65] + [0x6C] == [0x48, 0x65, 0x6C];
    assert [0x48, 0x65, 0x6C] + [0x6C] == [0x48, 0x65, 0x6C, 0x6C];
    var sc1 := Scanner(ACCEPT, 0x48, [0x48], 1, true, 1);
    var sc2 := Scanner(ACCEPT, 0x65, [0x48, 0x65], 2, true, 2);
    var sc3 := Scanner(ACCEPT, 0x6C, [0x48, 0x65, 0x6C], 3, true, 3);
    var sc4 := Scanner(ACCEPT, 0x6C, [], 4, false, 4);
    AsciiStored(0, [], 0, true, 0, 0x48, 4);
    AsciiStored(0x48, [0x48], 1, true, 1, 0x65, 4);
    AsciiStored(0x65, [0x48, 0x65], 2, true, 2, 0x6C, 4);
    AsciiOpensRun(0x6C, [0x48, 0x65, 0x6C], 3, 3, 0x6C, 4);
    AsciiExtendsRun(0x6C, 4, 0x6F, 4);
    U8.OutStep(Init, s, 0, 4, true);
    U8.OutStep(sc1, s, 1, 4, true);
    U8.OutStep(sc2, s, 2, 4, true);
    U8.OutStep(sc3, s, 3, 4, true);
    U8.OutStep(sc4, s, 4, 4, true);
  }

  /** The same in utf8strings. */
  lemma {:induction false} HelloFirstRunUtf8(s: seq<int>)
    requires IsBytes(s) && |s| >= 5
    requires s[0] == 0x48 && s[1] == 0x65 && s[2] == 0x6C && s[3] == 0x6C && s[4] == 0x6F
    ensures Utf8S.Out(Init, s, 0, 4, true)
      == [Tag(0), Bytes([0x48, 0x65, 0x6C, 0x6C]), Bytes([0x6F])] + Utf8S.Out(Scanner(ACCEPT, 0x6F, [], 4, false, 5), s, 5, 4, true)
  {
    assert [] + [0x48] == [0x48] && [0x48] + [0x65] == [0x48, 0x65] && [0x48, 0x65] + [0x6C] == [0x48, 0x65, 0x6C];
    assert [0x48, 0x65, 0x6C] + [0x6C] == [0x48, 0x65, 0x6C, 0x6C];
    var sc1 := Scanner(ACCEPT, 0x48, [0x48], 1, true, 1);
    var sc2 := Scanner(ACCEPT, 0x65, [0x48, 0x65], 2, true, 2);
    var sc3 := Scanner(ACCEPT, 0x6C, [0x48, 0x65, 0x6C], 3, true, 3);
    var sc4 := Scanner(ACCEPT, 0x6C, [], 4, false, 4);
    AsciiStored(0, [], 0, true, 0, 0x48, 4);
    AsciiStored(0x48, [0x48], 1, true, 1, 0x65, 4);
    AsciiStored(0x65, [0x48, 0x65], 2, true, 2, 0x6C, 4);
    AsciiOpensRun(0x6C, [0x48, 0x65, 0x6C], 3, 3, 0x6C, 4);
    AsciiExtendsRun(0x6C, 4, 0x6F, 4);
    Utf8S.OutStep(Init, s, 0, 4, true);
    Utf8S.OutStep(sc1, s, 1, 4, true);
    Utf8S.OutStep(sc2, s, 2, 4, true);
    Utf8S.OutStep(sc3, s, 3, 4, true);
    Utf8S.OutStep(sc4, s, 4, 4, true);
  }

  /** The first NUL ends the printed run with a newline; the other two
      print nothing. */
  lemma {:induction false} HelloGapU8(s: seq<int>)
    requires IsBytes(s) && |s| >= 8 && s[5] == 0x00 && s[6] == 0x00 && s[7] == 0x00
    ensures U8.Out(Scanner(ACCEPT, 0x6F, [], 4, false, 5), s, 5, 4, true)
      == [Newline] + U8.Out(Scanner(ACCEPT, 0x00, [], 0, true, 8), s, 8, 4, true)
  {
    var sc6 := Scanner(ACCEPT, 0x00, [], 0, true, 6);
    var sc7 := Scanner(ACCEPT, 0x00, [], 0, true, 7);
    assert U8.Out(Scanner(ACCEPT, 0x6F, [], 4, false, 5), s, 5, 4, true) == [Newline] + U8.Out(sc6, s, 6, 4, true) by {
      NulEndsRun(0x6F, [], 4, false, 5, 4);
      U8.OutStep(Scanner(ACCEPT, 0x6F, [], 4, false, 5), s, 5, 4, true);
    }
    assert U8.Out(sc6, s, 6, 4, true) == U8.Out(sc7, s, 7, 4, true) by {
      NulEndsRun(0x00, [], 0, true, 6, 4);
      U8.OutStep(sc6, s, 6, 4, true);
    }
    assert U8.Out(sc7, s, 7, 4, true) == U8.Out(Scanner(ACCEPT, 0x00, [], 0, true, 8), s, 8, 4, true) by {
      NulEndsRun(0x00, [], 0, true, 7, 4);
      U8.OutStep(sc7, s, 7, 4, true);
    }
  }

  /** The same in utf8strings. */
  lemma {:induction false} HelloGapUtf8(s: seq<int>)
    requires IsBytes(s) && |s| >= 8 && s[5] == 0x00 && s[6] == 0x00 && s[7] == 0x00
    ensures Utf8S.Out(Scanner(ACCEPT, 0x6F, [], 4, false, 5), s, 5, 4, true)
      == [Newline] + Utf8S.Out(Scanner(ACCEPT, 0x00, [], 0, true, 8), s, 8, 4, true)
  {
    var sc6 := Scanner(ACCEPT, 0x00, [], 0, true, 6);
    var sc7 := Scanner(ACCEPT, 0x00, [], 0, true, 7);
    assert Utf8S.Out(Scanner(ACCEPT, 0x6F, [], 4, false, 5), s, 5, 4, true) == [Newline] + Utf8S.Out(sc6, s, 6, 4, true) by {
      NulEndsRun(0x6F, [], 4, false, 5, 4);
      Utf8S.OutStep(Scanner(ACCEPT, 0x6F, [], 4, false, 5), s, 5, 4, true);
    }
    assert Utf8S.Out(sc6, s, 6, 4, true) == Utf8S.Out(sc7, s, 7, 4, true) by {
      NulEndsRun(0x00, [], 0, true, 6, 4);
      Utf8S.OutStep(sc6, s, 6, 4, true);
    }
    assert Utf8S.Out(sc7, s, 7, 4, true) == Utf8S.Out(Scanner(ACCEPT, 0x00, [], 0, true, 8), s, 8, 4, true) by {
      NulEndsRun(0x00, [], 0, true, 7, 4);
      Utf8S.OutStep(sc7, s, 7, 4, true);
    }
  }

  /** "World" opens a new run, tagged with the offset 8 of its "W". */
  lemma {:induction false} HelloSecondRunU8(s: seq<int>)
    requires IsBytes(s) && |s| >= 13
    requires s[8] == 0x57 && s[9] == 0x6F && s[10] == 0x72 && s[11] == 0x6C && s[12] == 0x64
    ensures U8.Out(Scanner(ACCEPT, 0x00, [], 0, true, 8), s, 8, 4, true)
      == [Tag(8), Bytes([0x57, 0x6F, 0x72, 0x6C]), Bytes([0x64])] + U8.Out(Scanner(ACCEPT, 0x64, [], 4, false, 13), s, 13, 4, true)
  {
    assert [] + [0x57] == [0x57] && [0x57] + [0x6F] == [0x57, 0x6F] && [0x57, 0x6F] + [0x72] == [0x57, 0x6F, 0x72];
    assert [0x57, 0x6F, 0x72] + [0x6C] == [0x57, 0x6F, 0x72, 0x6C];
    var sc8 := Scanner(ACCEPT, 0x00, [], 0, true, 8);
    var sc9 := Scanner(ACCEPT, 0x57, [0x57], 1, true, 9);
    var sc10 := Scanner(ACCEPT, 0x6F, [0x57, 0x6F], 2, true, 10);
    var sc11 := Scanner(ACCEPT, 0x72, [0x57, 0x6F, 0x72], 3, true, 11);
    var sc12 := Scanner(ACCEPT, 0x6C, [], 4, false, 12);
    AsciiStored(0x00, [], 0, true, 8, 0x57, 4);
    AsciiStored(0x57, [0x57], 1, true, 9, 0x6F, 4);
    AsciiStored(0x6F, [0x57, 0x6F], 2, true, 10, 0x72, 4);
    AsciiOpensRun(0x72, [0x57, 0x6F, 0x72], 3, 11, 0x6C, 4);
    AsciiExtendsRun(0x6C, 12, 0x64, 4);
    U8.OutStep(sc8, s, 8, 4, true);
    U8.OutStep(sc9, s, 9, 4, true);
    U8.OutStep(sc10, s, 10, 4, true);
    U8.OutStep(sc11, s, 11, 4, true);
    U8.OutStep(sc12, s, 12, 4, true);
  }

  /** The same in utf8strings. */
  lemma {:induction false} HelloSecondRunUtf8(s: seq<int>)
    requires IsBytes(s) && |s| >= 13
    requires s[8] == 0x57 && s[9] == 0x6F && s[10] == 0x72 && s[11] == 0x6C && s[12] == 0x64
    ensures Utf8S.Out(Scanner(ACCEPT, 0x00, [], 0, true, 8), s, 8, 4, true)
      == [Tag(8), Bytes([0x57, 0x6F, 0x72, 0x6C]), Bytes([0x64])] + Utf8S.Out(Scanner(ACCEPT, 0x64, [], 4, false, 13), s, 13, 4, true)
  {
    assert [] + [0x57] == [0x57] && [0x57] + [0x6F] == [0x57, 0x6F] && [0x57, 0x6F] + [0x72] == [0x57, 0x6F, 0x72];
    assert [0x57, 0x6F, 0x72] + [0x6C] == [0x57, 0x6F, 0x72, 0x6C];
    var sc8 := Scanner(ACCEPT, 0x00, [], 0, true, 8);
    var sc9 := Scanner(ACCEPT, 0x57, [0x57], 1, true, 9);
    var sc10 := Scanner(ACCEPT, 0x6F, [0x57, 0x6F], 2, true, 10);
    var sc11 := Scanner(ACCEPT, 0x72, [0x57, 0x6F, 0x72], 3, true, 11);
    var sc12 := Scanner(ACCEPT, 0x6C, [], 4, false, 12);
    AsciiStored(0x00, [], 0, true, 8, 0x57, 4);
    AsciiStored(0x57, [0x57], 1, true, 9, 0x6F, 4);
    AsciiStored(0x6F, [0x57, 0x6F], 2, true, 10, 0x72, 4);
    AsciiOpensRun(0x72, [0x57, 0x6F, 0x72], 3, 11, 0x6C, 4);
    AsciiExtendsRun(0x6C, 12, 0x64, 4);
    Utf8S.OutStep(sc8, s, 8, 4, true);
    Utf8S.OutStep(sc9, s, 9, 4, true);
    Utf8S.OutStep(sc10, s, 10, 4, true);
    Utf8S.OutStep(sc11, s, 11, 4, true);
    Utf8S.OutStep(sc12, s, 12, 4, true);
  }

  /** The three pieces joined, on any input made of those bytes. */
  lemma {:induction false} HelloWorldOnU8(s: seq<int>)
    requires IsBytes(s) && |s| == 13
    requires s[0] == 0x48 && s[1] == 0x65 && s[2] == 0x6C && s[3] == 0x6C && s[4] == 0x6F
    requires s[5] == 0x00 && s[6] == 0x00 && s[7] == 0x00
    requires s[8] == 0x57 && s[9] == 0x6F && s[10] == 0x72 && s[11] == 0x6C && s[12] == 0x64
    ensures U8.Extract(s, 4, true) == [Tag(0), Bytes([0x48, 0x65, 0x6C, 0x6C]), Bytes([0x6F]), Newline,
                                       Tag(8), Bytes([0x57, 0x6F, 0x72, 0x6C]), Bytes([0x64]), Newline]
  {
    HelloFirstRunU8(s);
    HelloGapU8(s);
    HelloSecondRunU8(s);
  }

  /** The same in utf8strings. */
  lemma {:induction false} HelloWorldOnUtf8(s: seq<int>)
    requires IsBytes(s) && |s| == 13
    requires s[0] == 0x48 && s[1] == 0x65 && s[2] == 0x6C && s[3] == 0x6C && s[4] == 0x6F
    requires s[5] == 0x00 && s[6] == 0x00 && s[7] == 0x00
    requires s[8] == 0x57 && s[9] == 0x6F && s[10] == 0x72 && s[11] == 0x6C && s[12] == 0x64
    ensures Utf8S.Extract(s, 4, true) == [Tag(0), Bytes([0x48, 0x65, 0x6C, 0x6C]), Bytes([0x6F]), Newline,
                                          Tag(8), Bytes([0x57, 0x6F, 0x72, 0x6C]), Bytes([0x64])]
  {
    HelloFirstRunUtf8(s);
    HelloGapUtf8(s);
    HelloSecondRunUtf8(s);
  }

  /** "Hello", three NULs, "World" with a limit of 4 and offsets: two runs,
      tagged 0 and 8, each printed as its first four characters and then
      one more; u8strings ends the second at the end of input. */
  lemma {:induction false} HelloWorldU8()
    ensures U8.Extract(Hello, 4, true) == [Tag(0), Bytes([0x48, 0x65, 0x6C, 0x6C]), Bytes([0x6F]), Newline,
                                           Tag(8), Bytes([0x57, 0x6F, 0x72, 0x6C]), Bytes([0x64]), Newline]
  {
    HelloBytes();
    HelloWorldOnU8(Hello);
  }

  /** The same in utf8strings, where the second run is not ended at the
      end of input. */
  lemma {:induction false} HelloWorldUtf8()
    ensures Utf8S.Extract(Hello, 4, true) == [Tag(0), Bytes([0x48, 0x65, 0x6C, 0x6C]), Bytes([0x6F]), Newline,
                                              Tag(8), Bytes([0x57, 0x6F, 0x72, 0x6C]), Bytes([0x64])]
  {
    HelloBytes();
    HelloWorldOnUtf8(Hello);
  }

  /** 0xFF then "AAAA" with a limit of 4 and offsets: the stray byte is
      dropped, and the run is tagged with the offset 1 of its first "A";
      u8strings ends it at the end of input. */
  lemma {:induction false} StrayThenRunU8()
    ensures U8.Extract([0xFF, 0x41, 0x41, 0x41, 0x41], 4, true) == [Tag(1), Bytes([0x41, 0x41, 0x41, 0x41]), Newline]
  {
    StrayThenRunOnU8([0xFF, 0x41, 0x41, 0x41, 0x41]);
  }

  /** The same in utf8strings, without the final newline. */
  lemma {:induction false} StrayThenRunUtf8()
    ensures Utf8S.Extract([0xFF, 0x41, 0x41, 0x41, 0x41], 4, true) == [Tag(1), Bytes([0x41, 0x41, 0x41, 0x41])]
  {
    StrayThenRunOnUtf8([0xFF, 0x41, 0x41, 0x41, 0x41]);
  }

  /** The steps of StrayThenRunU8, on any input made of those bytes. */
  lemma {:induction false} StrayThenRunOnU8(s: seq<int>)
    requires IsBytes(s) && |s| == 5 && s[0] == 0xFF && s[1] == 0x41 && s[2] == 0x41 && s[3] == 0x41 && s[4] == 0x41
    ensures U8.Extract(s, 4, true) == [Tag(1), Bytes([0x41, 0x41, 0x41, 0x41]), Newline]
  {
    StrayThenRunStepsU8(s);
  }

  /** The stray byte, then the run. */
  lemma {:induction false} StrayThenRunStepsU8(s: seq<int>)
    requires IsBytes(s) && |s| >= 5 && s[0] == 0xFF && s[1] == 0x41 && s[2] == 0x41 && s[3] == 0x41 && s[4] == 0x41
    ensures U8.Out(Init, s, 0, 4, true)
      == [Tag(1), Bytes([0x41, 0x41, 0x41, 0x41])] + U8.Out(Scanner(ACCEPT, 0x41, [], 4, false, 5), s, 5, 4, true)
  {
    StrayByte(0, 4);
    U8.OutStep(Init, s, 0, 4, true);
    FourLettersU8(s);
  }

  /** "AAAA" after the stray byte: the fourth "A" prints the tag 1 and the
      run. */
  lemma {:induction false} FourLettersU8(s: seq<int>)
    requires IsBytes(s) && |s| >= 5 && s[1] == 0x41 && s[2] == 0x41 && s[3] == 0x41 && s[4] == 0x41
    ensures U8.Out(Scanner(ACCEPT, 0, [], 0, true, 1), s, 1, 4, true)
      == [Tag(1), Bytes([0x41, 0x41, 0x41, 0x41])] + U8.Out(Scanner(ACCEPT, 0x41, [], 4, false, 5), s, 5, 4, true)
  {
    assert [] + [0x41] == [0x41] && [0x41] + [0x41] == [0x41, 0x41] && [0x41, 0x41] + [0x41] == [0x41, 0x41, 0x41];
    assert [0x41, 0x41, 0x41] + [0x41] == [0x41, 0x41, 0x41, 0x41];
    var sc1 := Scanner(ACCEPT, 0, [], 0, true, 1);
    var sc2 := Scanner(ACCEPT, 0x41, [0x41], 1, true, 2);
    var sc3 := Scanner(ACCEPT, 0x41, [0x41, 0x41], 2, true, 3);
    var sc4 := Scanner(ACCEPT, 0x41, [0x41, 0x41, 0x41], 3, true, 4);
    AsciiStored(0, [], 0, true, 1, 0x41, 4);
    AsciiStored(0x41, [0x41], 1, true, 2, 0x41, 4);
    AsciiStored(0x41, [0x41, 0x41], 2, true, 3, 0x41, 4);
    AsciiOpensRun(0x41, [0x41, 0x41, 0x41], 3, 4, 0x41, 4);
    U8.OutStep(sc1, s, 1, 4, true);
    U8.OutStep(sc2, s, 2, 4, true);
    U8.OutStep(sc3, s, 3, 4, true);
    U8.OutStep(sc4, s, 4, 4, true);
  }

  /** The steps of StrayThenRunUtf8. */
  lemma {:induction false} StrayThenRunOnUtf8(s: seq<int>)
    requires IsBytes(s) && |s| == 5 && s[0] == 0xFF && s[1] == 0x41 && s[2] == 0x41 && s[3] == 0x41 && s[4] == 0x41
    ensures Utf8S.Extract(s, 4, true) == [Tag(1), Bytes([0x41, 0x41, 0x41, 0x41])]
  {
    StrayThenRunStepsUtf8(s);
  }

  /** The stray byte, then the run. */
  lemma {:induction false} StrayThenRunStepsUtf8(s: seq<int>)
    requires IsBytes(s) && |s| >= 5 && s[0] == 0xFF && s[1] == 0x41 && s[2] == 0x41 && s[3] == 0x41 && s[4] == 0x41
    ensures Utf8S.Out(Init, s, 0, 4, true)
      == [Tag(1), Bytes([0x41, 0x41, 0x41, 0x41])] + Utf8S.Out(Scanner(ACCEPT, 0x41, [], 4, false, 5), s, 5, 4, true)
  {
    StrayByte(0, 4);
    Utf8S.OutStep(Init, s, 0, 4, true);
    FourLettersUtf8(s);
  }

  /** "AAAA" after the stray byte: the fourth "A" prints the tag 1 and the
      run. */
  lemma {:induction false} FourLettersUtf8(s: seq<int>)
    requires IsBytes(s) && |s| >= 5 && s[1] == 0x41 && s[2] == 0x41 && s[3] == 0x41 && s[4] == 0x41
    ensures Utf8S.Out(Scanner(ACCEPT, 0, [], 0, true, 1), s, 1, 4, true)
      == [Tag(1), Bytes([0x41, 0x41, 0x41, 0x41])] + Utf8S.Out(Scanner(ACCEPT, 0x41, [], 4, false, 5), s, 5, 4, true)
  {
    assert [] + [0x41] == [0x41] && [0x41] + [0x41] == [0x41, 0x41] && [0x41, 0x41] + [0x41] == [0x41, 0x41, 0x41];
    assert [0x41, 0x41, 0x41] + [0x41] == [0x41, 0x41, 0x41, 0x41];
    var sc1 := Scanner(ACCEPT, 0, [], 0, true, 1);
    var sc2 := Scanner(ACCEPT, 0x41, [0x41], 1, true, 2);
    var sc3 := Scanner(ACCEPT, 0x41, [0x41, 0x41], 2, true, 3);
    var sc4 := Scanner(ACCEPT, 0x41, [0x41, 0x41, 0x41], 3, true, 4);
    AsciiStored(0, [], 0, true, 1, 0x41, 4);
    AsciiStored(0x41, [0x41], 1, true, 2, 0x41, 4);
    AsciiStored(0x41, [0x41, 0x41], 2, true, 3, 0x41, 4);
    AsciiOpensRun(0x41, [0x41, 0x41, 0x41], 3, 4, 0x41, 4);
    Utf8S.OutStep(sc1, s, 1, 4, true);
    Utf8S.OutStep(sc2, s, 2, 4, true);
    Utf8S.OutStep(sc3, s, 3, 4, true);
    Utf8S.OutStep(sc4, s, 4, 4, true);
  }

  // ---------------------------------------------------------------------
  // Framed ties each chunk and each tag to the input

  /** "ABCD", NUL, "ABCD" with limit 4 and offsets: the second run must be
      tagged 5, where it begins; a second tag 0 is not framed. */
  lemma {:induction false} RepeatedTagNotFramed()
    ensures !Framed([0x41, 0x42, 0x43, 0x44, 0x00, 0x41, 0x42, 0x43, 0x44],
                    [Tag(0), Bytes([0x41, 0x42, 0x43, 0x44]), Newline, Tag(0), Bytes([0x41, 0x42, 0x43, 0x44]), Newline],
                    0, Closed, 4, true, Resync)
  {
    var s := [0x41, 0x42, 0x43, 0x44, 0x00, 0x41, 0x42, 0x43, 0x44];
    var out := [Tag(0), Bytes([0x41, 0x42, 0x43, 0x44]), Newline, Tag(0), Bytes([0x41, 0x42, 0x43, 0x44]), Newline];
    assert !Framed(s, out[3..], 4, Closed, 4, true, Resync);
    assert !Framed(s, out[2..], 4, Open, 4, true, Resync);
    assert !Framed(s, out[1..], 0, Opening, 4, true, Resync);
  }

  /** Bytes that are not in the input are not framed. */
  lemma {:induction false} ForeignBytesNotFramed()
    ensures !Framed([0x00, 0x00], [Bytes([0x41, 0x42, 0x43, 0x44]), Newline], 0, Closed, 4, false, Resync)
  {
  }
}
