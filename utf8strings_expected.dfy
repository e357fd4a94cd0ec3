/** extract_strings of utf8strings.c prints what Runs.Expected describes for
    the Drop variant: the byte-at-a-time scanner of module Utf8Strings,
    read piece by piece, is the character-level description of module Runs.
    Every piece that ends a run, whether an unprintable character or bytes
    that form none, is consumed whole, and a partial character at the end
    of input is dropped without a newline.

    The lemmas are stated with Decoded, Reading and Described of module
    Pieces and with Printed, the scanner's output from a point of the
    input.

    Main result: ExtractIsExpected, and with it ExtractIsFramed. */
module Utf8StringsExpected {
  import opened Utf8
  import opened Dfa
  import opened Printable
  import opened Runs
  import opened Scanners
  import opened Pieces
  import opened Utf8Strings

  /** What extract_strings prints from that point to the end of input.
      The accumulator left at a piece boundary does not matter (see
      ReadingIgnoresCodep), so it is taken to be 0. */
  function Printed(s: seq<int>, i: nat, k: nat, start: nat, count: nat, limit: nat, tagged: bool): seq<Event>
    requires IsBytes(s) && start <= i && i + k <= |s|
  {
    Out(Reading(s, i, k, start, count, 0, limit, tagged), s, i + k, limit, tagged)
  }

  /** What extract_strings prints from scanner `sc` on, from byte `j` of
      the input. */
  function After(sc: Scanner, s: seq<int>, j: nat, limit: nat, tagged: bool): seq<Event>
    requires IsState(sc.state) && IsBytes(s) && j <= |s|
  {
    Out(sc, s, j, limit, tagged)
  }

  // ---------------------------------------------------------------------
  // The decoder on one piece

  /** A piece that ends a run: its bytes but the last extend a partial
      character, and the last is refused. */
  lemma {:induction false} RunDropped(s: seq<int>, i: nat, n: nat)
    requires IsBytes(s) && i < |s| && (NextPiece(s[i..]) == Unprintable(n) || NextPiece(s[i..]) == Invalid(n))
    ensures 1 <= n && i + n <= |s| && (n == 1 || IsPartial(s[i..i + n - 1]))
    ensures var r := Decoded(s, i, n); r.0 == REJECT || (r.0 == ACCEPT && !IsPrintable(r.1))
  {
    if NextPiece(s[i..]).Invalid? && n > 1 {
      RunInvalid(s, i, n);
    } else {
      RunBreak(s, i, n);
    }
  }

  // ---------------------------------------------------------------------
  // The scanner on one byte of a piece

  /** A byte that leaves the character partial is buffered, and nothing is
      printed. */
  lemma {:induction false} PendingStep(s: seq<int>, i: nat, k: nat, start: nat, count: nat, limit: nat, tagged: bool)
    requires IsBytes(s) && start <= i && i + k < |s|
    requires var q := Decoded(s, i, k + 1).0; q != ACCEPT && q != REJECT
    ensures var f := Feed(Reading(s, i, k, start, count, 0, limit, tagged), s[i + k], limit, tagged);
      f.0 == Reading(s, i, k + 1, start, count, 0, limit, tagged) && f.1 == []
  {
    var sc := Reading(s, i, k, start, count, 0, limit, tagged);
    assert Step(sc.state, sc.codep, s[i + k]) == Decoded(s, i, k + 1);
    FeedKeeps(sc, s[i + k], limit, tagged);
    StorePending(s, i, k, start, count, limit, tagged);
  }

  /** The last byte of a printable character: what StoreText describes. */
  lemma {:induction false} TextStep(s: seq<int>, i: nat, n: nat, start: nat, count: nat, limit: nat, tagged: bool)
    requires IsBytes(s) && limit >= 1 && start <= i && 1 <= n && i + n <= |s|
    requires Decoded(s, i, n).0 == ACCEPT && IsPrintable(Decoded(s, i, n).1)
    ensures var f := Feed(Reading(s, i, n - 1, start, count, 0, limit, tagged), s[i + n - 1], limit, tagged);
      f.0 == Reading(s, i + n, 0, start, count + 1, Decoded(s, i, n).1, limit, tagged) &&
      f.1 == Flush(s, start, i, i + n, count + 1, limit, tagged)
  {
    var sc := Reading(s, i, n - 1, start, count, 0, limit, tagged);
    assert Step(sc.state, sc.codep, s[i + n - 1]) == Decoded(s, i, n);
    FeedKeeps(sc, s[i + n - 1], limit, tagged);
    StoreText(s, i, n, start, count, Decoded(s, i, n).1, limit, tagged);
  }

  /** The refused last byte of a piece: the run ends, with a newline if it
      was printed, and the byte is dropped. */
  lemma {:induction false} DropStep(s: seq<int>, i: nat, n: nat, start: nat, count: nat, limit: nat, tagged: bool)
    requires IsBytes(s) && limit >= 1 && start <= i && 1 <= n && i + n <= |s|
    requires var r := Decoded(s, i, n); r.0 == REJECT || (r.0 == ACCEPT && !IsPrintable(r.1))
    ensures var f := Feed(Reading(s, i, n - 1, start, count, 0, limit, tagged), s[i + n - 1], limit, tagged);
      f.0 == Reading(s, i + n, 0, i + n, 0, Decoded(s, i, n).1, limit, tagged) &&
      f.1 == if count >= limit then [Newline] else []
  {
    var sc := Reading(s, i, n - 1, start, count, 0, limit, tagged);
    assert Step(sc.state, sc.codep, s[i + n - 1]) == Decoded(s, i, n);
    FeedDrops(sc, s[i + n - 1], limit, tagged);
    assert s[i + n..i + n] == [];
  }

  // ---------------------------------------------------------------------
  // The scanner's output, piece by piece

  /** Two scanners that the next byte brings to the same state, the first
      printing `extra` more than the second, print that much more to the
      end of input. */
  lemma {:induction false} AfterShared(sc: Scanner, other: Scanner, s: seq<int>, j: nat, extra: seq<Event>, limit: nat, tagged: bool)
    requires IsState(sc.state) && IsState(other.state) && IsBytes(s) && j < |s|
    requires Feed(sc, s[j], limit, tagged) == (Feed(other, s[j], limit, tagged).0, extra + Feed(other, s[j], limit, tagged).1)
    ensures After(sc, s, j, limit, tagged) == extra + After(other, s, j, limit, tagged)
  {
    var f := Feed(other, s[j], limit, tagged);
    OutStep(sc, s, j, limit, tagged);
    OutStep(other, s, j, limit, tagged);
    assert After(sc, s, j, limit, tagged) == (extra + f.1) + After(f.0, s, j + 1, limit, tagged);
    assert After(other, s, j, limit, tagged) == f.1 + After(f.0, s, j + 1, limit, tagged);
  }

  /** At a piece boundary the decoder is in ACCEPT, where the next byte
      overwrites the accumulator: what is printed from there does not
      depend on it. */
  lemma {:induction false} ReadingIgnoresCodep(s: seq<int>, i: nat, start: nat, count: nat, codep: int, limit: nat, tagged: bool)
    requires IsBytes(s) && start <= i <= |s|
    ensures After(Reading(s, i, 0, start, count, codep, limit, tagged), s, i, limit, tagged)
      == Printed(s, i, 0, start, count, limit, tagged)
  {
    var sc := Reading(s, i, 0, start, count, codep, limit, tagged);
    var sc0 := Reading(s, i, 0, start, count, 0, limit, tagged);
    if i < |s| {
      var f := Feed(sc0, s[i], limit, tagged);
      assert Feed(sc, s[i], limit, tagged) == f by {
        assert Step(sc.state, sc.codep, s[i]) == Step(sc0.state, sc0.codep, s[i]);
      }
      assert [] + f.1 == f.1;
      AfterShared(sc, sc0, s, i, [], limit, tagged);
    }
  }

  /** The output from inside a piece is what the next byte prints, then
      the output after it. */
  lemma {:induction false} PrintedStep(s: seq<int>, i: nat, k: nat, j: nat, j': nat, start: nat, count: nat, limit: nat, tagged: bool)
    requires IsBytes(s) && start <= i && j == i + k && j' == j + 1 && j < |s|
    ensures var f := Feed(Reading(s, i, k, start, count, 0, limit, tagged), s[j], limit, tagged);
      Printed(s, i, k, start, count, limit, tagged) == f.1 + After(f.0, s, j', limit, tagged)
  {
    OutStep(Reading(s, i, k, start, count, 0, limit, tagged), s, j, limit, tagged);
  }

  /** A byte that leaves the character partial prints nothing. */
  lemma {:induction false} PendingOut(s: seq<int>, i: nat, k: nat, start: nat, count: nat, limit: nat, tagged: bool)
    requires IsBytes(s) && start <= i && i + k < |s|
    requires var q := Decoded(s, i, k + 1).0; q != ACCEPT && q != REJECT
    ensures Printed(s, i, k, start, count, limit, tagged) == Printed(s, i, k + 1, start, count, limit, tagged)
  {
    PrintedStep(s, i, k, i + k, i + k + 1, start, count, limit, tagged);
    PendingStep(s, i, k, start, count, limit, tagged);
    var rest := Printed(s, i, k + 1, start, count, limit, tagged);
    assert After(Reading(s, i, k + 1, start, count, 0, limit, tagged), s, i + k + 1, limit, tagged) == rest;
    assert [] + rest == rest;
  }

  /** The bytes of a partial character are read without output. */
  lemma {:induction false} PendingRun(s: seq<int>, i: nat, k: nat, m: nat, start: nat, count: nat, limit: nat, tagged: bool)
    requires IsBytes(s) && start <= i && k <= m && i + m <= |s|
    requires IsPartial(s[i..i + m])
    ensures Printed(s, i, k, start, count, limit, tagged) == Printed(s, i, m, start, count, limit, tagged)
    decreases m - k
  {
    if k < m {
      PendingByte(s, i, k, m, start, count, limit, tagged);
      PendingRun(s, i, k + 1, m, start, count, limit, tagged);
    }
  }

  /** One byte of a partial character prints nothing. */
  lemma {:induction false} PendingByte(s: seq<int>, i: nat, k: nat, m: nat, start: nat, count: nat, limit: nat, tagged: bool)
    requires IsBytes(s) && start <= i && k < m && i + m <= |s|
    requires IsPartial(s[i..i + m])
    ensures Printed(s, i, k, start, count, limit, tagged) == Printed(s, i, k + 1, start, count, limit, tagged)
  {
    RunPending(s, i, k, m);
    PendingOut(s, i, k, start, count, limit, tagged);
  }

  /** The last byte of a printable character, from a piece boundary on. */
  lemma {:induction false} LastText(s: seq<int>, i: nat, n: nat, start: nat, count: nat, limit: nat, tagged: bool)
    requires IsBytes(s) && limit >= 1 && start <= i && 1 <= n && i + n <= |s|
    requires Decoded(s, i, n).0 == ACCEPT && IsPrintable(Decoded(s, i, n).1)
    ensures Printed(s, i, n - 1, start, count, limit, tagged)
      == Flush(s, start, i, i + n, count + 1, limit, tagged) + Printed(s, i + n, 0, start, count + 1, limit, tagged)
  {
    TextPrinted(s, i, n, start, count, limit, tagged);
    ReadingIgnoresCodep(s, i + n, start, count + 1, Decoded(s, i, n).1, limit, tagged);
  }

  /** The last byte of a printable character extends the run. */
  lemma {:induction false} TextPrinted(s: seq<int>, i: nat, n: nat, start: nat, count: nat, limit: nat, tagged: bool)
    requires IsBytes(s) && limit >= 1 && start <= i && 1 <= n && i + n <= |s|
    requires Decoded(s, i, n).0 == ACCEPT && IsPrintable(Decoded(s, i, n).1)
    ensures Printed(s, i, n - 1, start, count, limit, tagged)
      == Flush(s, start, i, i + n, count + 1, limit, tagged)
         + After(Reading(s, i + n, 0, start, count + 1, Decoded(s, i, n).1, limit, tagged), s, i + n, limit, tagged)
  {
    TextStep(s, i, n, start, count, limit, tagged);
    PrintedStep(s, i, n - 1, i + n - 1, i + n, start, count, limit, tagged);
  }

  /** The refused last byte of a piece, from a piece boundary on. */
  lemma {:induction false} LastDrop(s: seq<int>, i: nat, n: nat, start: nat, count: nat, limit: nat, tagged: bool)
    requires IsBytes(s) && limit >= 1 && start <= i && 1 <= n && i + n <= |s|
    requires var r := Decoded(s, i, n); r.0 == REJECT || (r.0 == ACCEPT && !IsPrintable(r.1))
    ensures Printed(s, i, n - 1, start, count, limit, tagged)
      == (if count >= limit then [Newline] else []) + Printed(s, i + n, 0, i + n, 0, limit, tagged)
  {
    DropPrinted(s, i, n, start, count, limit, tagged);
    ReadingIgnoresCodep(s, i + n, i + n, 0, Decoded(s, i, n).1, limit, tagged);
  }

  /** The refused last byte of a piece ends the run. */
  lemma {:induction false} DropPrinted(s: seq<int>, i: nat, n: nat, start: nat, count: nat, limit: nat, tagged: bool)
    requires IsBytes(s) && limit >= 1 && start <= i && 1 <= n && i + n <= |s|
    requires var r := Decoded(s, i, n); r.0 == REJECT || (r.0 == ACCEPT && !IsPrintable(r.1))
    ensures Printed(s, i, n - 1, start, count, limit, tagged)
      == (if count >= limit then [Newline] else [])
         + After(Reading(s, i + n, 0, i + n, 0, Decoded(s, i, n).1, limit, tagged), s, i + n, limit, tagged)
  {
    DropStep(s, i, n, start, count, limit, tagged);
    PrintedStep(s, i, n - 1, i + n - 1, i + n, start, count, limit, tagged);
  }

  /** The output from a printable character on. */
  lemma {:induction false} TextOut(s: seq<int>, i: nat, n: nat, start: nat, count: nat, limit: nat, tagged: bool)
    requires IsBytes(s) && limit >= 1 && start <= i < |s|
    requires NextPiece(s[i..]) == Text(n)
    ensures 1 <= n && i + n <= |s|
    ensures Printed(s, i, 0, start, count, limit, tagged)
      == Flush(s, start, i, i + n, count + 1, limit, tagged) + Printed(s, i + n, 0, start, count + 1, limit, tagged)
  {
    TextLast(s, i, n, start, count, limit, tagged);
    if n > 1 {
      TextPending(s, i, n, start, count, limit, tagged);
    }
  }

  /** The bytes before the last one of a printable character print
      nothing. */
  lemma {:induction false} TextPending(s: seq<int>, i: nat, n: nat, start: nat, count: nat, limit: nat, tagged: bool)
    requires IsBytes(s) && limit >= 1 && start <= i < |s| && n > 1
    requires NextPiece(s[i..]) == Text(n)
    ensures i + n <= |s|
    ensures Printed(s, i, 0, start, count, limit, tagged) == Printed(s, i, n - 1, start, count, limit, tagged)
  {
    RunText(s, i, n);
    PendingRun(s, i, 0, n - 1, start, count, limit, tagged);
  }

  /** The last byte of a printable character extends the run. */
  lemma {:induction false} TextLast(s: seq<int>, i: nat, n: nat, start: nat, count: nat, limit: nat, tagged: bool)
    requires IsBytes(s) && limit >= 1 && start <= i < |s|
    requires NextPiece(s[i..]) == Text(n)
    ensures 1 <= n && i + n <= |s|
    ensures Printed(s, i, n - 1, start, count, limit, tagged)
      == Flush(s, start, i, i + n, count + 1, limit, tagged) + Printed(s, i + n, 0, start, count + 1, limit, tagged)
  {
    RunText(s, i, n);
    LastText(s, i, n, start, count, limit, tagged);
  }

  /** The output from a piece that ends the run on: the piece is consumed
      whole. */
  lemma {:induction false} DropOut(s: seq<int>, i: nat, n: nat, start: nat, count: nat, limit: nat, tagged: bool)
    requires IsBytes(s) && limit >= 1 && start <= i < |s|
    requires NextPiece(s[i..]) == Unprintable(n) || NextPiece(s[i..]) == Invalid(n)
    ensures 1 <= n && i + n <= |s|
    ensures Printed(s, i, 0, start, count, limit, tagged)
      == (if count >= limit then [Newline] else []) + Printed(s, i + n, 0, i + n, 0, limit, tagged)
  {
    DropLast(s, i, n, start, count, limit, tagged);
    if n > 1 {
      DropPending(s, i, n, start, count, limit, tagged);
    }
  }

  /** The bytes before the last one of such a piece print nothing. */
  lemma {:induction false} DropPending(s: seq<int>, i: nat, n: nat, start: nat, count: nat, limit: nat, tagged: bool)
    requires IsBytes(s) && limit >= 1 && start <= i < |s| && n > 1
    requires NextPiece(s[i..]) == Unprintable(n) || NextPiece(s[i..]) == Invalid(n)
    ensures i + n <= |s|
    ensures Printed(s, i, 0, start, count, limit, tagged) == Printed(s, i, n - 1, start, count, limit, tagged)
  {
    RunDropped(s, i, n);
    PendingRun(s, i, 0, n - 1, start, count, limit, tagged);
  }

  /** The last byte of such a piece ends the run. */
  lemma {:induction false} DropLast(s: seq<int>, i: nat, n: nat, start: nat, count: nat, limit: nat, tagged: bool)
    requires IsBytes(s) && limit >= 1 && start <= i < |s|
    requires NextPiece(s[i..]) == Unprintable(n) || NextPiece(s[i..]) == Invalid(n)
    ensures 1 <= n && i + n <= |s|
    ensures Printed(s, i, n - 1, start, count, limit, tagged)
      == (if count >= limit then [Newline] else []) + Printed(s, i + n, 0, i + n, 0, limit, tagged)
  {
    RunDropped(s, i, n);
    LastDrop(s, i, n, start, count, limit, tagged);
  }

  /** A partial character at the end of input prints nothing, not even
      the newline of a printed run. */
  lemma {:induction false} TruncatedOut(s: seq<int>, i: nat, n: nat, start: nat, count: nat, limit: nat, tagged: bool)
    requires IsBytes(s) && limit >= 1 && start <= i < |s|
    requires NextPiece(s[i..]) == Truncated(n)
    ensures Printed(s, i, 0, start, count, limit, tagged) == []
  {
    PieceAt(s, i);
    assert s[i..i + n] == s[i..];
    PendingRun(s, i, 0, n, start, count, limit, tagged);
  }

  // ---------------------------------------------------------------------
  // The correspondence

  /** From a piece boundary the scanner prints what Emit describes. */
  lemma {:induction false} OutIsEmit(s: seq<int>, i: nat, start: nat, count: nat, limit: nat, tagged: bool)
    requires IsBytes(s) && limit >= 1 && start <= i <= |s|
    ensures Printed(s, i, 0, start, count, limit, tagged) == Described(s, i, start, count, limit, tagged, Drop)
    decreases |s| - i, 1
  {
    if i < |s| {
      match NextPiece(s[i..])
      case Text(n) => TextIsEmit(s, i, n, start, count, limit, tagged);
      case Unprintable(n) => DropIsEmit(s, i, n, start, count, limit, tagged);
      case Invalid(n) => DropIsEmit(s, i, n, start, count, limit, tagged);
      case Truncated(n) =>
        TruncatedOut(s, i, n, start, count, limit, tagged);
        DescribedTruncated(s, i, n, start, count, limit, tagged, Drop);
    }
  }

  lemma {:induction false} TextIsEmit(s: seq<int>, i: nat, n: nat, start: nat, count: nat, limit: nat, tagged: bool)
    requires IsBytes(s) && limit >= 1 && start <= i < |s|
    requires NextPiece(s[i..]) == Text(n)
    ensures Printed(s, i, 0, start, count, limit, tagged) == Described(s, i, start, count, limit, tagged, Drop)
    decreases |s| - i, 0
  {
    TextOut(s, i, n, start, count, limit, tagged);
    DescribedText(s, i, n, start, count, limit, tagged, Drop);
    assert Printed(s, i + n, 0, start, count + 1, limit, tagged) == Described(s, i + n, start, count + 1, limit, tagged, Drop) by {
      OutIsEmit(s, i + n, start, count + 1, limit, tagged);
    }
    SamePrefix(Printed(s, i, 0, start, count, limit, tagged), Described(s, i, start, count, limit, tagged, Drop),
               Printed(s, i + n, 0, start, count + 1, limit, tagged), Described(s, i + n, start, count + 1, limit, tagged, Drop),
               Flush(s, start, i, i + n, count + 1, limit, tagged));
  }

  lemma {:induction false} DropIsEmit(s: seq<int>, i: nat, n: nat, start: nat, count: nat, limit: nat, tagged: bool)
    requires IsBytes(s) && limit >= 1 && start <= i < |s|
    requires NextPiece(s[i..]) == Unprintable(n) || NextPiece(s[i..]) == Invalid(n)
    ensures Printed(s, i, 0, start, count, limit, tagged) == Described(s, i, start, count, limit, tagged, Drop)
    decreases |s| - i, 0
  {
    DropOut(s, i, n, start, count, limit, tagged);
    DescribedBreak(s, i, i + n, start, count, limit, tagged, Drop);
    assert Printed(s, i + n, 0, i + n, 0, limit, tagged) == Described(s, i + n, i + n, 0, limit, tagged, Drop) by {
      OutIsEmit(s, i + n, i + n, 0, limit, tagged);
    }
    SamePrefix(Printed(s, i, 0, start, count, limit, tagged), Described(s, i, start, count, limit, tagged, Drop),
               Printed(s, i + n, 0, i + n, 0, limit, tagged), Described(s, i + n, i + n, 0, limit, tagged, Drop),
               if count >= limit then [Newline] else []);
  }

  /** extract_strings prints what Expected describes for the Drop
      variant. */
  lemma {:induction false} ExtractIsExpected(input: seq<int>, limit: nat, tagged: bool)
    requires limit >= 1 && IsBytes(input)
    ensures Extract(input, limit, tagged) == Expected(input, limit, tagged, Drop)
  {
    assert Reading(input, 0, 0, 0, 0, 0, limit, tagged) == Init;
    OutIsEmit(input, 0, 0, 0, limit, tagged);
  }

  /** Hence every output of extract_strings has the shape Framed describes:
      whole printable characters only, runs of at least `limit` characters,
      one correct offset per run when tagged, and a newline after every run
      but a last one that the end of input cuts off. */
  lemma {:induction false} ExtractIsFramed(input: seq<int>, limit: nat, tagged: bool)
    requires limit >= 1 && IsBytes(input)
    ensures Framed(input, Extract(input, limit, tagged), 0, Closed, limit, tagged, Drop)
  {
    ExtractIsExpected(input, limit, tagged);
    ExpectedIsFramed(input, limit, tagged, Drop);
  }
}
