/** extract_strings of u8strings.c prints what Runs.Expected describes for
    the Resync variant: the byte-at-a-time scanner of module U8Strings,
    read piece by piece, is the character-level description of module Runs.

    The lemmas are stated with Decoded, Printed and Described, which name
    the decoder's run over part of a piece, the scanner's output from a
    point of the input and the described output from a piece boundary.

    Main result: ExtractIsExpected, and with it ExtractIsFramed. */
module U8StringsExpected {
  import opened Utf8
  import opened Dfa
  import opened Printable
  import opened Runs
  import opened Scanners
  import opened Pieces
  import opened U8Strings

  /** What extract_strings prints from that point to the end of input.
      The accumulator left at a piece boundary does not matter (see
      ReadingIgnoresCodep), so it is taken to be 0. */
  function Printed(s: seq<int>, i: nat, k: nat, start: nat, count: nat, limit: nat, tagged: bool): seq<Event>
    requires IsBytes(s) && start <= i && i + k <= |s|
  {
    Out(Reading(s, i, k, start, count, 0, limit, tagged), s, i + k, limit, tagged)
  }

  /** What extract_strings prints from scanner `sc` on, from byte `j` of
      the input. */
  function After(sc: Scanner, s: seq<int>, j: nat, limit: nat, tagged: bool): seq<Event>
    requires IsState(sc.state) && IsBytes(s) && j <= |s|
  {
    Out(sc, s, j, limit, tagged)
  }

  /** The accumulator a resync leaves after byte `b`. */
  function Resumed(b: int): int
    requires IsByte(b)
  {
    Step(ACCEPT, 0, b).1
  }

  // ---------------------------------------------------------------------
  // The decoder on one piece

  /** Its last byte is refused again when read from ACCEPT. */
  lemma {:induction false} BreakRefused(s: seq<int>, i: nat, n: nat)
    requires IsBytes(s) && i < |s| && (NextPiece(s[i..]) == Unprintable(n) || (n == 1 && NextPiece(s[i..]) == Invalid(1)))
    ensures 1 <= n && i + n <= |s|
    ensures var r := Step(ACCEPT, 0, s[i + n - 1]); r.0 == REJECT || (r.0 == ACCEPT && !IsPrintable(r.1))
  {
    PieceAt(s, i);
    var p := s[i..i + n];
    var b := s[i + n - 1];
    StartStep(b, 0);
    if n == 1 {
      assert p == [b];
    } else {
      UnprintableIsShort(p);
      assert p[1] == b;
      assert !IsChar([b]) && !IsPartial([b]);
    }
  }

  // ---------------------------------------------------------------------
  // The scanner on one byte of a piece


  /** A byte that leaves the character partial is buffered, and nothing is
      printed. */
  lemma {:induction false} PendingStep(s: seq<int>, i: nat, k: nat, start: nat, count: nat, limit: nat, tagged: bool)
    requires IsBytes(s) && start <= i && i + k < |s|
    requires var q := Decoded(s, i, k + 1).0; q != ACCEPT && q != REJECT
    ensures var f := Feed(Reading(s, i, k, start, count, 0, limit, tagged), s[i + k], limit, tagged);
      f.0 == Reading(s, i, k + 1, start, count, 0, limit, tagged) && f.1 == []
  {
    var sc := Reading(s, i, k, start, count, 0, limit, tagged);
    assert Step(sc.state, sc.codep, s[i + k]) == Decoded(s, i, k + 1);
    FeedKeeps(sc, s[i + k], limit, tagged);
    StorePending(s, i, k, start, count, limit, tagged);
  }

  /** The last byte of a printable character: what StoreText describes. */
  lemma {:induction false} TextStep(s: seq<int>, i: nat, n: nat, start: nat, count: nat, limit: nat, tagged: bool)
    requires IsBytes(s) && limit >= 1 && start <= i && 1 <= n && i + n <= |s|
    requires Decoded(s, i, n).0 == ACCEPT && IsPrintable(Decoded(s, i, n).1)
    ensures var f := Feed(Reading(s, i, n - 1, start, count, 0, limit, tagged), s[i + n - 1], limit, tagged);
      f.0 == Reading(s, i + n, 0, start, count + 1, Decoded(s, i, n).1, limit, tagged) &&
      f.1 == Flush(s, start, i, i + n, count + 1, limit, tagged)
  {
    var sc := Reading(s, i, n - 1, start, count, 0, limit, tagged);
    assert Step(sc.state, sc.codep, s[i + n - 1]) == Decoded(s, i, n);
    FeedKeeps(sc, s[i + n - 1], limit, tagged);
    StoreText(s, i, n, start, count, Decoded(s, i, n).1, limit, tagged);
  }

  /** A byte refused when read from ACCEPT leaves a fresh, empty run. */
  lemma {:induction false} RestartDrops(b: int, offset: nat, limit: nat, tagged: bool)
    requires IsByte(b)
    requires var r := Step(ACCEPT, 0, b); r.0 == REJECT || (r.0 == ACCEPT && !IsPrintable(r.1))
    ensures Restart(b, offset, limit, tagged) == (Scanner(ACCEPT, Resumed(b), [], 0, true, offset), [])
  {
  }

  /** The last byte of an unprintable character, or a lone byte that begins
      none: the run ends, with a newline if it was printed, and the byte is
      not kept. */
  lemma {:induction false} BreakStep(s: seq<int>, i: nat, n: nat, start: nat, count: nat, limit: nat, tagged: bool)
    requires IsBytes(s) && limit >= 1 && start <= i && 1 <= n && i + n <= |s|
    requires var r := Decoded(s, i, n); r.0 == REJECT || (r.0 == ACCEPT && !IsPrintable(r.1))
    requires var r := Step(ACCEPT, 0, s[i + n - 1]); r.0 == REJECT || (r.0 == ACCEPT && !IsPrintable(r.1))
    ensures var f := Feed(Reading(s, i, n - 1, start, count, 0, limit, tagged), s[i + n - 1], limit, tagged);
      f.0 == Reading(s, i + n, 0, i + n, 0, Resumed(s[i + n - 1]), limit, tagged) &&
      f.1 == if count >= limit then [Newline] else []
  {
    var sc := Reading(s, i, n - 1, start, count, 0, limit, tagged);
    assert Step(sc.state, sc.codep, s[i + n - 1]) == Decoded(s, i, n);
    FeedRestarts(sc, s[i + n - 1], limit, tagged);
    RestartDrops(s[i + n - 1], if tagged then i + n else 0, limit, tagged);
    assert s[i + n..i + n] == [];
    var newline: seq<Event> := if count >= limit then [Newline] else [];
    assert newline + [] == newline;
  }

  /** Read from the start of a new run, a byte does what the resync after
      a rejection does with it. */
  lemma {:induction false} FreshFeed(s: seq<int>, i: nat, codep: int, limit: nat, tagged: bool)
    requires IsBytes(s) && limit >= 1 && i < |s|
    ensures Feed(Reading(s, i, 0, i, 0, codep, limit, tagged), s[i], limit, tagged)
      == Restart(s[i], if tagged then i + 1 else 0, limit, tagged)
  {
    var sc := Reading(s, i, 0, i, 0, codep, limit, tagged);
    var r := Step(sc.state, sc.codep, s[i]);
    if r.0 == REJECT || (r.0 == ACCEPT && !IsPrintable(r.1)) {
      FeedRestarts(sc, s[i], limit, tagged);
      var restart := Restart(s[i], if tagged then i + 1 else 0, limit, tagged);
      assert [] + restart.1 == restart.1;
    } else {
      assert s[i..i] == [];
      FeedKeeps(sc, s[i], limit, tagged);
      RestartKeeps(s[i], if tagged then i + 1 else 0, limit, tagged);
    }
  }

  /** The byte that stops a partial character: the run ends, and the byte
      is read again as the start of the next run. */
  lemma {:induction false} InvalidStep(s: seq<int>, i: nat, n: nat, start: nat, count: nat, limit: nat, tagged: bool)
    requires IsBytes(s) && limit >= 1 && start <= i && 2 <= n && i + n <= |s|
    requires Decoded(s, i, n).0 == REJECT
    ensures var f := Feed(Reading(s, i + n - 1, 0, i + n - 1, 0, 0, limit, tagged), s[i + n - 1], limit, tagged);
      Feed(Reading(s, i, n - 1, start, count, 0, limit, tagged), s[i + n - 1], limit, tagged)
        == (f.0, (if count >= limit then [Newline] else []) + f.1)
  {
    var sc := Reading(s, i, n - 1, start, count, 0, limit, tagged);
    assert Step(sc.state, sc.codep, s[i + n - 1]).0 == REJECT;
    FeedRestarts(sc, s[i + n - 1], limit, tagged);
    FreshFeed(s, i + n - 1, 0, limit, tagged);
  }

  // ---------------------------------------------------------------------
  // The scanner's output, piece by piece


  /** Two scanners that the next byte brings to the same state, the first
      printing `extra` more than the second, print that much more to the
      end of input. */
  lemma {:induction false} AfterShared(sc: Scanner, other: Scanner, s: seq<int>, j: nat, extra: seq<Event>, limit: nat, tagged: bool)
    requires IsState(sc.state) && IsState(other.state) && IsBytes(s) && j < |s|
    requires Feed(sc, s[j], limit, tagged) == (Feed(other, s[j], limit, tagged).0, extra + Feed(other, s[j], limit, tagged).1)
    ensures After(sc, s, j, limit, tagged) == extra + After(other, s, j, limit, tagged)
  {
    var f := Feed(other, s[j], limit, tagged);
    OutStep(sc, s, j, limit, tagged);
    OutStep(other, s, j, limit, tagged);
    assert After(sc, s, j, limit, tagged) == (extra + f.1) + After(f.0, s, j + 1, limit, tagged);
    assert After(other, s, j, limit, tagged) == f.1 + After(f.0, s, j + 1, limit, tagged);
  }

  /** At a piece boundary the decoder is in ACCEPT, where the next byte
      overwrites the accumulator: what is printed from there does not
      depend on it. */
  lemma {:induction false} ReadingIgnoresCodep(s: seq<int>, i: nat, start: nat, count: nat, codep: int, limit: nat, tagged: bool)
    requires IsBytes(s) && start <= i <= |s|
    ensures After(Reading(s, i, 0, start, count, codep, limit, tagged), s, i, limit, tagged)
      == Printed(s, i, 0, start, count, limit, tagged)
  {
    var sc := Reading(s, i, 0, start, count, codep, limit, tagged);
    var sc0 := Reading(s, i, 0, start, count, 0, limit, tagged);
    if i < |s| {
      var f := Feed(sc0, s[i], limit, tagged);
      assert Feed(sc, s[i], limit, tagged) == f by {
        assert Step(sc.state, sc.codep, s[i]) == Step(sc0.state, sc0.codep, s[i]);
      }
      assert [] + f.1 == f.1;
      AfterShared(sc, sc0, s, i, [], limit, tagged);
    }
  }

  /** The output from inside a piece is what the next byte prints, then
      the output after it. */
  lemma {:induction false} PrintedStep(s: seq<int>, i: nat, k: nat, j: nat, j': nat, start: nat, count: nat, limit: nat, tagged: bool)
    requires IsBytes(s) && start <= i && j == i + k && j' == j + 1 && j < |s|
    ensures var f := Feed(Reading(s, i, k, start, count, 0, limit, tagged), s[j], limit, tagged);
      Printed(s, i, k, start, count, limit, tagged) == f.1 + After(f.0, s, j', limit, tagged)
  {
    OutStep(Reading(s, i, k, start, count, 0, limit, tagged), s, j, limit, tagged);
  }

  /** A byte that leaves the character partial prints nothing. */
  lemma {:induction false} PendingOut(s: seq<int>, i: nat, k: nat, start: nat, count: nat, limit: nat, tagged: bool)
    requires IsBytes(s) && start <= i && i + k < |s|
    requires var q := Decoded(s, i, k + 1).0; q != ACCEPT && q != REJECT
    ensures Printed(s, i, k, start, count, limit, tagged) == Printed(s, i, k + 1, start, count, limit, tagged)
  {
    PrintedStep(s, i, k, i + k, i + k + 1, start, count, limit, tagged);
    PendingStep(s, i, k, start, count, limit, tagged);
    var rest := Printed(s, i, k + 1, start, count, limit, tagged);
    assert After(Reading(s, i, k + 1, start, count, 0, limit, tagged), s, i + k + 1, limit, tagged) == rest;
    assert [] + rest == rest;
  }

  /** The bytes of a partial character are read without output. */
  lemma {:induction false} PendingRun(s: seq<int>, i: nat, k: nat, m: nat, start: nat, count: nat, limit: nat, tagged: bool)
    requires IsBytes(s) && start <= i && k <= m && i + m <= |s|
    requires IsPartial(s[i..i + m])
    ensures Printed(s, i, k, start, count, limit, tagged) == Printed(s, i, m, start, count, limit, tagged)
    decreases m - k
  {
    if k < m {
      PendingByte(s, i, k, m, start, count, limit, tagged);
      PendingRun(s, i, k + 1, m, start, count, limit, tagged);
    }
  }

  /** One byte of a partial character prints nothing. */
  lemma {:induction false} PendingByte(s: seq<int>, i: nat, k: nat, m: nat, start: nat, count: nat, limit: nat, tagged: bool)
    requires IsBytes(s) && start <= i && k < m && i + m <= |s|
    requires IsPartial(s[i..i + m])
    ensures Printed(s, i, k, start, count, limit, tagged) == Printed(s, i, k + 1, start, count, limit, tagged)
  {
    RunPending(s, i, k, m);
    PendingOut(s, i, k, start, count, limit, tagged);
  }

  lemma {:induction false} LastText(s: seq<int>, i: nat, n: nat, start: nat, count: nat, limit: nat, tagged: bool)
    requires IsBytes(s) && limit >= 1 && start <= i && 1 <= n && i + n <= |s|
    requires Decoded(s, i, n).0 == ACCEPT && IsPrintable(Decoded(s, i, n).1)
    ensures Printed(s, i, n - 1, start, count, limit, tagged)
      == Flush(s, start, i, i + n, count + 1, limit, tagged) + Printed(s, i + n, 0, start, count + 1, limit, tagged)
  {
    TextPrinted(s, i, n, start, count, limit, tagged);
    ReadingIgnoresCodep(s, i + n, start, count + 1, Decoded(s, i, n).1, limit, tagged);
  }

  lemma {:induction false} TextPrinted(s: seq<int>, i: nat, n: nat, start: nat, count: nat, limit: nat, tagged: bool)
    requires IsBytes(s) && limit >= 1 && start <= i && 1 <= n && i + n <= |s|
    requires Decoded(s, i, n).0 == ACCEPT && IsPrintable(Decoded(s, i, n).1)
    ensures Printed(s, i, n - 1, start, count, limit, tagged)
      == Flush(s, start, i, i + n, count + 1, limit, tagged)
         + After(Reading(s, i + n, 0, start, count + 1, Decoded(s, i, n).1, limit, tagged), s, i + n, limit, tagged)
  {
    TextStep(s, i, n, start, count, limit, tagged);
    PrintedStep(s, i, n - 1, i + n - 1, i + n, start, count, limit, tagged);
  }

  lemma {:induction false} LastBreak(s: seq<int>, i: nat, n: nat, start: nat, count: nat, limit: nat, tagged: bool)
    requires IsBytes(s) && limit >= 1 && start <= i && 1 <= n && i + n <= |s|
    requires var r := Decoded(s, i, n); r.0 == REJECT || (r.0 == ACCEPT && !IsPrintable(r.1))
    requires var r := Step(ACCEPT, 0, s[i + n - 1]); r.0 == REJECT || (r.0 == ACCEPT && !IsPrintable(r.1))
    ensures Printed(s, i, n - 1, start, count, limit, tagged)
      == (if count >= limit then [Newline] else []) + Printed(s, i + n, 0, i + n, 0, limit, tagged)
  {
    BreakPrinted(s, i, n, start, count, limit, tagged);
    ReadingIgnoresCodep(s, i + n, i + n, 0, Resumed(s[i + n - 1]), limit, tagged);
  }

  lemma {:induction false} BreakPrinted(s: seq<int>, i: nat, n: nat, start: nat, count: nat, limit: nat, tagged: bool)
    requires IsBytes(s) && limit >= 1 && start <= i && 1 <= n && i + n <= |s|
    requires var r := Decoded(s, i, n); r.0 == REJECT || (r.0 == ACCEPT && !IsPrintable(r.1))
    requires var r := Step(ACCEPT, 0, s[i + n - 1]); r.0 == REJECT || (r.0 == ACCEPT && !IsPrintable(r.1))
    ensures Printed(s, i, n - 1, start, count, limit, tagged)
      == (if count >= limit then [Newline] else [])
         + After(Reading(s, i + n, 0, i + n, 0, Resumed(s[i + n - 1]), limit, tagged), s, i + n, limit, tagged)
  {
    PrintedStep(s, i, n - 1, i + n - 1, i + n, start, count, limit, tagged);
    BreakStep(s, i, n, start, count, limit, tagged);
  }

  lemma {:induction false} LastInvalid(s: seq<int>, i: nat, n: nat, start: nat, count: nat, limit: nat, tagged: bool)
    requires IsBytes(s) && limit >= 1 && start <= i && 2 <= n && i + n <= |s|
    requires Decoded(s, i, n).0 == REJECT
    ensures Printed(s, i, n - 1, start, count, limit, tagged)
      == (if count >= limit then [Newline] else []) + Printed(s, i + n - 1, 0, i + n - 1, 0, limit, tagged)
  {
    var j := i + n - 1;
    InvalidStep(s, i, n, start, count, limit, tagged);
    AfterShared(Reading(s, i, n - 1, start, count, 0, limit, tagged), Reading(s, j, 0, j, 0, 0, limit, tagged),
                s, j, if count >= limit then [Newline] else [], limit, tagged);
  }

  /** The output from a printable character on. */
  lemma {:induction false} TextOut(s: seq<int>, i: nat, n: nat, start: nat, count: nat, limit: nat, tagged: bool)
    requires IsBytes(s) && limit >= 1 && start <= i < |s|
    requires NextPiece(s[i..]) == Text(n)
    ensures 1 <= n && i + n <= |s|
    ensures Printed(s, i, 0, start, count, limit, tagged)
      == Flush(s, start, i, i + n, count + 1, limit, tagged) + Printed(s, i + n, 0, start, count + 1, limit, tagged)
  {
    TextLast(s, i, n, start, count, limit, tagged);
    if n > 1 {
      TextPending(s, i, n, start, count, limit, tagged);
    }
  }

  /** The bytes before the last one of a printable character print
      nothing. */
  lemma {:induction false} TextPending(s: seq<int>, i: nat, n: nat, start: nat, count: nat, limit: nat, tagged: bool)
    requires IsBytes(s) && limit >= 1 && start <= i < |s| && n > 1
    requires NextPiece(s[i..]) == Text(n)
    ensures i + n <= |s|
    ensures Printed(s, i, 0, start, count, limit, tagged) == Printed(s, i, n - 1, start, count, limit, tagged)
  {
    RunText(s, i, n);
    PendingRun(s, i, 0, n - 1, start, count, limit, tagged);
  }

  /** The last byte of a printable character extends the run. */
  lemma {:induction false} TextLast(s: seq<int>, i: nat, n: nat, start: nat, count: nat, limit: nat, tagged: bool)
    requires IsBytes(s) && limit >= 1 && start <= i < |s|
    requires NextPiece(s[i..]) == Text(n)
    ensures 1 <= n && i + n <= |s|
    ensures Printed(s, i, n - 1, start, count, limit, tagged)
      == Flush(s, start, i, i + n, count + 1, limit, tagged) + Printed(s, i + n, 0, start, count + 1, limit, tagged)
  {
    RunText(s, i, n);
    LastText(s, i, n, start, count, limit, tagged);
  }

  /** The output from an unprintable character, or a lone byte that begins
      none, on. */
  lemma {:induction false} BreakOut(s: seq<int>, i: nat, n: nat, start: nat, count: nat, limit: nat, tagged: bool)
    requires IsBytes(s) && limit >= 1 && start <= i < |s|
    requires NextPiece(s[i..]) == Unprintable(n) || (n == 1 && NextPiece(s[i..]) == Invalid(1))
    ensures 1 <= n && i + n <= |s|
    ensures Printed(s, i, 0, start, count, limit, tagged)
      == (if count >= limit then [Newline] else []) + Printed(s, i + n, 0, i + n, 0, limit, tagged)
  {
    BreakLast(s, i, n, start, count, limit, tagged);
    if n > 1 {
      BreakPending(s, i, n, start, count, limit, tagged);
    }
  }

  /** The bytes before the last one of an unprintable character print
      nothing. */
  lemma {:induction false} BreakPending(s: seq<int>, i: nat, n: nat, start: nat, count: nat, limit: nat, tagged: bool)
    requires IsBytes(s) && limit >= 1 && start <= i < |s| && n > 1
    requires NextPiece(s[i..]) == Unprintable(n)
    ensures i + n <= |s|
    ensures Printed(s, i, 0, start, count, limit, tagged) == Printed(s, i, n - 1, start, count, limit, tagged)
  {
    RunBreak(s, i, n);
    PendingRun(s, i, 0, n - 1, start, count, limit, tagged);
  }

  /** The last byte of such a piece ends the run. */
  lemma {:induction false} BreakLast(s: seq<int>, i: nat, n: nat, start: nat, count: nat, limit: nat, tagged: bool)
    requires IsBytes(s) && limit >= 1 && start <= i < |s|
    requires NextPiece(s[i..]) == Unprintable(n) || (n == 1 && NextPiece(s[i..]) == Invalid(1))
    ensures 1 <= n && i + n <= |s|
    ensures Printed(s, i, n - 1, start, count, limit, tagged)
      == (if count >= limit then [Newline] else []) + Printed(s, i + n, 0, i + n, 0, limit, tagged)
  {
    RunBreak(s, i, n);
    BreakRefused(s, i, n);
    LastBreak(s, i, n, start, count, limit, tagged);
  }

  /** The output from a partial character cut short by a byte that cannot
      continue it: that byte starts the next run. */
  lemma {:induction false} InvalidOut(s: seq<int>, i: nat, n: nat, start: nat, count: nat, limit: nat, tagged: bool)
    requires IsBytes(s) && limit >= 1 && start <= i < |s| && n > 1
    requires NextPiece(s[i..]) == Invalid(n)
    ensures i + n <= |s|
    ensures Printed(s, i, 0, start, count, limit, tagged)
      == (if count >= limit then [Newline] else []) + Printed(s, i + n - 1, 0, i + n - 1, 0, limit, tagged)
  {
    RunInvalid(s, i, n);
    PendingRun(s, i, 0, n - 1, start, count, limit, tagged);
    LastInvalid(s, i, n, start, count, limit, tagged);
  }

  /** A partial character at the end of input: nothing but the newline
      that ends a printed run. */
  lemma {:induction false} TruncatedOut(s: seq<int>, i: nat, n: nat, start: nat, count: nat, limit: nat, tagged: bool)
    requires IsBytes(s) && limit >= 1 && start <= i < |s|
    requires NextPiece(s[i..]) == Truncated(n)
    ensures Printed(s, i, 0, start, count, limit, tagged) == if count >= limit then [Newline] else []
  {
    PieceAt(s, i);
    assert s[i..i + n] == s[i..];
    PendingRun(s, i, 0, n, start, count, limit, tagged);
  }

  // ---------------------------------------------------------------------
  // The correspondence


  /** From a piece boundary the scanner prints what Emit describes. */
  lemma {:induction false} OutIsEmit(s: seq<int>, i: nat, start: nat, count: nat, limit: nat, tagged: bool)
    requires IsBytes(s) && limit >= 1 && start <= i <= |s|
    ensures Printed(s, i, 0, start, count, limit, tagged) == Described(s, i, start, count, limit, tagged, Resync)
    decreases |s| - i, 1
  {
    if i < |s| {
      match NextPiece(s[i..])
      case Text(n) => TextIsEmit(s, i, n, start, count, limit, tagged);
      case Unprintable(n) => BreakIsEmit(s, i, n, start, count, limit, tagged);
      case Invalid(n) =>
        if n == 1 {
          BreakIsEmit(s, i, n, start, count, limit, tagged);
        } else {
          InvalidIsEmit(s, i, n, start, count, limit, tagged);
        }
      case Truncated(n) =>
        TruncatedOut(s, i, n, start, count, limit, tagged);
        DescribedTruncated(s, i, n, start, count, limit, tagged, Resync);
    }
  }

  lemma {:induction false} TextIsEmit(s: seq<int>, i: nat, n: nat, start: nat, count: nat, limit: nat, tagged: bool)
    requires IsBytes(s) && limit >= 1 && start <= i < |s|
    requires NextPiece(s[i..]) == Text(n)
    ensures Printed(s, i, 0, start, count, limit, tagged) == Described(s, i, start, count, limit, tagged, Resync)
    decreases |s| - i, 0
  {
    TextOut(s, i, n, start, count, limit, tagged);
    DescribedText(s, i, n, start, count, limit, tagged, Resync);
    assert Printed(s, i + n, 0, start, count + 1, limit, tagged) == Described(s, i + n, start, count + 1, limit, tagged, Resync) by {
      OutIsEmit(s, i + n, start, count + 1, limit, tagged);
    }
    SamePrefix(Printed(s, i, 0, start, count, limit, tagged), Described(s, i, start, count, limit, tagged, Resync),
               Printed(s, i + n, 0, start, count + 1, limit, tagged), Described(s, i + n, start, count + 1, limit, tagged, Resync),
               Flush(s, start, i, i + n, count + 1, limit, tagged));
  }

  lemma {:induction false} BreakIsEmit(s: seq<int>, i: nat, n: nat, start: nat, count: nat, limit: nat, tagged: bool)
    requires IsBytes(s) && limit >= 1 && start <= i < |s|
    requires NextPiece(s[i..]) == Unprintable(n) || (n == 1 && NextPiece(s[i..]) == Invalid(1))
    ensures Printed(s, i, 0, start, count, limit, tagged) == Described(s, i, start, count, limit, tagged, Resync)
    decreases |s| - i, 0
  {
    BreakOut(s, i, n, start, count, limit, tagged);
    DescribedBreak(s, i, i + n, start, count, limit, tagged, Resync);
    assert Printed(s, i + n, 0, i + n, 0, limit, tagged) == Described(s, i + n, i + n, 0, limit, tagged, Resync) by {
      OutIsEmit(s, i + n, i + n, 0, limit, tagged);
    }
    SamePrefix(Printed(s, i, 0, start, count, limit, tagged), Described(s, i, start, count, limit, tagged, Resync),
               Printed(s, i + n, 0, i + n, 0, limit, tagged), Described(s, i + n, i + n, 0, limit, tagged, Resync),
               if count >= limit then [Newline] else []);
  }

  lemma {:induction false} InvalidIsEmit(s: seq<int>, i: nat, n: nat, start: nat, count: nat, limit: nat, tagged: bool)
    requires IsBytes(s) && limit >= 1 && start <= i < |s| && n > 1
    requires NextPiece(s[i..]) == Invalid(n)
    ensures Printed(s, i, 0, start, count, limit, tagged) == Described(s, i, start, count, limit, tagged, Resync)
    decreases |s| - i, 0
  {
    var j := i + n - 1;
    InvalidOut(s, i, n, start, count, limit, tagged);
    DescribedBreak(s, i, j, start, count, limit, tagged, Resync);
    assert Printed(s, j, 0, j, 0, limit, tagged) == Described(s, j, j, 0, limit, tagged, Resync) by {
      OutIsEmit(s, j, j, 0, limit, tagged);
    }
    SamePrefix(Printed(s, i, 0, start, count, limit, tagged), Described(s, i, start, count, limit, tagged, Resync),
               Printed(s, j, 0, j, 0, limit, tagged), Described(s, j, j, 0, limit, tagged, Resync),
               if count >= limit then [Newline] else []);
  }

  /** extract_strings prints what Expected describes for the Resync
      variant. */
  lemma {:induction false} ExtractIsExpected(input: seq<int>, limit: nat, tagged: bool)
    requires limit >= 1 && IsBytes(input)
    ensures Extract(input, limit, tagged) == Expected(input, limit, tagged, Resync)
  {
    assert Reading(input, 0, 0, 0, 0, 0, limit, tagged) == Init;
    OutIsEmit(input, 0, 0, 0, limit, tagged);
  }

  /** Hence every output of extract_strings has the shape Framed describes:
      whole printable characters only, runs of at least `limit` characters,
      one correct offset per run when tagged, a newline after every run. */
  lemma {:induction false} ExtractIsFramed(input: seq<int>, limit: nat, tagged: bool)
    requires limit >= 1 && IsBytes(input)
    ensures Framed(input, Extract(input, limit, tagged), 0, Closed, limit, tagged, Resync)
  {
    ExtractIsExpected(input, limit, tagged);
    ExpectedIsFramed(input, limit, tagged, Resync);
  }
}
