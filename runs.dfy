/** What the extractors are meant to print, stated over characters rather
    than decoder states: the input splits into pieces (a printable
    character, a stretch that breaks the current run, or an incomplete
    character cut off by the end of input), and a run of consecutive
    printable characters is printed once it has `limit` of them.

    The two variants differ in how a rejected byte is treated: u8strings.c
    tries it again as the first byte of a new character (Resync),
    utf8strings.c drops it and never ends a run at the end of input (Drop).

    Main result: ExpectedIsFramed, the shape every output has. */
module Runs {
  import opened Utf8
  import opened Printable

  /** What an extractor writes to standard output: the offset of a run's
      first byte, a chunk of the run's bytes, or the newline that ends a
      run. */
  datatype Event = Tag(offset: int) | Bytes(data: seq<int>) | Newline

  datatype Variant = Resync | Drop

  /** What the input begins with:
      - Text: a printable character;
      - Unprintable: a character IsPrintable refuses;
      - Invalid: a (possibly empty) partial character followed by a byte
        that neither completes nor continues it; `len` counts that byte;
      - Truncated: a partial character that the input ends in. */
  datatype Piece = Text(len: nat) | Unprintable(len: nat) | Invalid(len: nat) | Truncated(len: nat)

  /** The piece at the front of `s`, found the way a decoder reads: the
      prefix grows one byte at a time for as long as it is a partial
      character (s[..k - 1] is one when k > 1). */
  function PieceFrom(s: seq<int>, k: nat): (p: Piece)
    requires 1 <= k <= |s|
    ensures k <= p.len <= |s|
    ensures p.Truncated? ==> p.len == |s|
    decreases |s| - k
  {
    if IsChar(s[..k]) then
      if IsPrintable(Decode(s[..k])) then Text(k) else Unprintable(k)
    else if !IsPartial(s[..k]) then Invalid(k)
    else if k == |s| then Truncated(k)
    else PieceFrom(s, k + 1)
  }

  function NextPiece(s: seq<int>): (p: Piece)
    requires |s| > 0
    ensures 1 <= p.len <= |s|
    ensures p.Truncated? ==> p.len == |s|
  {
    PieceFrom(s, 1)
  }

  /** What each kind of piece is, in the terms of section 4 of RFC 3629;
      every byte of a piece but the last extends a partial character. */
  lemma {:induction false} PieceFacts(s: seq<int>)
    requires |s| > 0
    ensures var p := NextPiece(s); var n := p.len;
      (n == 1 || IsPartial(s[..n - 1])) &&
      (p.Text? ==> IsChar(s[..n]) && IsPrintable(Decode(s[..n]))) &&
      (p.Unprintable? ==> IsChar(s[..n]) && !IsPrintable(Decode(s[..n]))) &&
      (p.Invalid? ==> !IsChar(s[..n]) && !IsPartial(s[..n])) &&
      (p.Truncated? ==> IsPartial(s))
  {
    PieceFromFacts(s, 1);
  }

  lemma {:induction false} PieceFromFacts(s: seq<int>, k: nat)
    requires 1 <= k <= |s| && (k == 1 || IsPartial(s[..k - 1]))
    ensures var p := PieceFrom(s, k); var n := p.len;
      (n == 1 || IsPartial(s[..n - 1])) &&
      (p.Text? ==> IsChar(s[..n]) && IsPrintable(Decode(s[..n]))) &&
      (p.Unprintable? ==> IsChar(s[..n]) && !IsPrintable(Decode(s[..n]))) &&
      (p.Invalid? ==> !IsChar(s[..n]) && !IsPartial(s[..n])) &&
      (p.Truncated? ==> IsPartial(s))
    decreases |s| - k
  {
    if !IsChar(s[..k]) && IsPartial(s[..k]) {
      if k == |s| {
        assert s[..k] == s;
      } else {
        PieceFromFacts(s, k + 1);
      }
    }
  }

  /** Conversely, an input that begins with a character begins with that
      character's piece. */
  lemma {:induction false} CharPiece(s: seq<int>, n: nat)
    requires 1 <= n <= |s| && IsChar(s[..n])
    ensures NextPiece(s) == if IsPrintable(Decode(s[..n])) then Text(n) else Unprintable(n)
  {
    PieceFromChar(s, n, 1);
  }

  lemma {:induction false} PieceFromChar(s: seq<int>, n: nat, k: nat)
    requires 1 <= k <= n <= |s| && IsChar(s[..n])
    ensures PieceFrom(s, k) == if IsPrintable(Decode(s[..n])) then Text(n) else Unprintable(n)
    decreases n - k
  {
    if k < n {
      assert s[..n][..k] == s[..k];
      CharPrefix(s[..n], k);
      Extension(s[..k], s[k..n]);
      PieceFromChar(s, n, k + 1);
    }
  }

  /** An input that is one partial character is a single Truncated piece. */
  lemma {:induction false} PartialPiece(s: seq<int>)
    requires IsPartial(s)
    ensures NextPiece(s) == Truncated(|s|)
  {
    PieceFromPartial(s, 1);
  }

  lemma {:induction false} PieceFromPartial(s: seq<int>, k: nat)
    requires IsPartial(s) && 1 <= k <= |s|
    ensures PieceFrom(s, k) == Truncated(|s|)
    decreases |s| - k
  {
    PartialPrefix(s, k);
    Extension(s[..k], [0]);
    if k < |s| {
      PieceFromPartial(s, k + 1);
    } else {
      assert s[..k] == s;
    }
  }

  /** How many bytes a piece consumes. Under Resync an Invalid piece leaves
      its last byte, the one that could not continue the partial character,
      to be read again as the start of the next piece; a lone such byte is
      consumed. Under Drop that byte goes with the partial character. */
  function Advance(p: Piece, v: Variant): (n: nat)
    ensures 1 <= p.len ==> 1 <= n <= p.len
  {
    if p.Invalid? && v == Resync && p.len > 1 then p.len - 1 else p.len
  }

  /** What a run prints when its `count`-th character, s[i..j], is added:
      on reaching the limit, the tag and the whole run so far, s[start..j];
      past the limit, the character alone. */
  function Flush(s: seq<int>, start: nat, i: nat, j: nat, count: nat, limit: nat, tagged: bool): seq<Event>
    requires start <= i <= j <= |s|
  {
    if count == limit then (if tagged then [Tag(start)] else []) + [Bytes(s[start..j])]
    else if count > limit then [Bytes(s[i..j])]
    else []
  }

  /** The output for s[i..], in the middle of the run that began at
      `start` and has `count` characters so far. A character that is not
      printable, or bytes that form none, end the run: with a newline if
      it was printed. */
  function Emit(s: seq<int>, i: nat, start: nat, count: nat, limit: nat, tagged: bool, v: Variant): seq<Event>
    requires start <= i <= |s|
    decreases |s| - i
  {
    if i == |s| then
      if v == Resync && count >= limit then [Newline] else []
    else
      var piece := NextPiece(s[i..]);
      var j := i + Advance(piece, v);
      match piece
      case Text(_) =>
        Flush(s, start, i, j, count + 1, limit, tagged) + Emit(s, j, start, count + 1, limit, tagged, v)
      case Truncated(_) =>
        Emit(s, j, start, count, limit, tagged, v)
      case _ =>
        (if count >= limit then [Newline] else []) + Emit(s, j, j, 0, limit, tagged, v)
  }

  /** The output for the whole input. */
  function Expected(s: seq<int>, limit: nat, tagged: bool, v: Variant): seq<Event> {
    Emit(s, 0, 0, 0, limit, tagged, v)
  }

  /** `d` consists of exactly `n` printable characters. */
  predicate IsText(d: seq<int>, n: nat)
    decreases |d|
  {
    if d == [] then n == 0
    else
      var p := NextPiece(d);
      n > 0 && p.Text? && IsText(d[p.len..], n - 1)
  }

  datatype Phase = Closed | Opening | Open

  /** The shape of an extractor's output, read from phase `phase` with the
      input consumed up to `pos`:
      - a run opens with a chunk of exactly `limit` printable characters,
        which are the input's bytes at some position at or after `pos`;
        when tagged, the chunk is preceded by that position (so a run has
        exactly one tag, the offset of its first byte);
      - each further chunk of the run is one more printable character, the
        input's bytes right after the previous chunk;
      - a newline ends a run, and only a run that was printed;
      - under Resync every run printed is ended by a newline.
      So the chunks are the input's own bytes, in order and without
      overlap. */
  predicate Framed(s: seq<int>, out: seq<Event>, pos: nat, phase: Phase, limit: nat, tagged: bool, v: Variant)
    decreases |out|
  {
    if out == [] then phase == Closed || (phase == Open && v == Drop)
    else match out[0]
      case Tag(o) =>
        phase == Closed && tagged && |out| >= 2 && out[1].Bytes? && pos <= o &&
        Framed(s, out[1..], o, Opening, limit, tagged, v)
      case Bytes(d) =>
        if phase == Closed then
          !tagged && IsText(d, limit) &&
          exists e: nat | pos + |d| <= e <= |s| :: s[e - |d|..e] == d && Framed(s, out[1..], e, Open, limit, tagged, v)
        else
          IsText(d, if phase == Open then 1 else limit) &&
          pos + |d| <= |s| && d == s[pos..pos + |d|] && Framed(s, out[1..], pos + |d|, Open, limit, tagged, v)
      case Newline =>
        phase == Open && Framed(s, out[1..], pos, Closed, limit, tagged, v)
  }

  /** Between runs, a later position only narrows where the next run may
      open. */
  lemma {:induction false} ClosedFrom(s: seq<int>, out: seq<Event>, pos: nat, pos': nat, limit: nat, tagged: bool, v: Variant)
    requires pos' <= pos && Framed(s, out, pos, Closed, limit, tagged, v)
    ensures Framed(s, out, pos', Closed, limit, tagged, v)
  {
    if out != [] && out[0].Bytes? {
      var d := out[0].data;
      var e: nat :| pos + |d| <= e <= |s| && s[e - |d|..e] == d && Framed(s, out[1..], e, Open, limit, tagged, v);
      assert pos' + |d| <= e;
    }
  }

  /** Every output has the shape Framed describes: only whole printable
      characters are printed, each chunk is the input's bytes where the
      run stands, only runs of at least `limit` characters are printed,
      and each carries, when tagged, the offset of its first byte. */
  lemma {:induction false} ExpectedIsFramed(s: seq<int>, limit: nat, tagged: bool, v: Variant)
    requires limit >= 1
    ensures Framed(s, Expected(s, limit, tagged, v), 0, Closed, limit, tagged, v)
  {
    EmitIsFramed(s, 0, 0, 0, limit, tagged, v);
  }

  /** From byte `i`, in a run that began at `start`, the output is framed
      from `i` once the run is printed and from `start` before. */
  lemma {:induction false} EmitIsFramed(s: seq<int>, i: nat, start: nat, count: nat, limit: nat, tagged: bool, v: Variant)
    requires limit >= 1 && start <= i <= |s|
    requires i == |s| || IsText(s[start..i], count)
    ensures Framed(s, Emit(s, i, start, count, limit, tagged, v), if count >= limit then i else start,
                   if count >= limit then Open else Closed, limit, tagged, v) == true
    decreases |s| - i, 1
  {
    if i == |s| {
      EndIsFramed(s, i, start, count, limit, tagged, v);
    } else {
      var piece := NextPiece(s[i..]);
      var j := i + Advance(piece, v);
      if piece.Text? {
        TextIsFramed(s, i, j, start, count, limit, tagged, v);
      } else if piece.Truncated? {
        assert j == |s|;
        EndIsFramed(s, j, start, count, limit, tagged, v);
        if count >= limit {
          EndFramedAnywhere(s, Emit(s, j, start, count, limit, tagged, v), j, i, limit, tagged, v);
        }
      } else {
        BreakIsFramed(s, i, j, start, count, limit, tagged, v);
      }
    }
  }

  /** At the end of input: the newline of a printed run under Resync. */
  lemma {:induction false} EndIsFramed(s: seq<int>, i: nat, start: nat, count: nat, limit: nat, tagged: bool, v: Variant)
    requires start <= i == |s|
    ensures Emit(s, i, start, count, limit, tagged, v) == if v == Resync && count >= limit then [Newline] else []
    ensures Framed(s, Emit(s, i, start, count, limit, tagged, v), if count >= limit then i else start,
                   if count >= limit then Open else Closed, limit, tagged, v) == true
  {
    if v == Resync && count >= limit {
      assert [Newline][1..] == [];
    }
  }

  /** An open run that only has its end left is framed from any position. */
  lemma {:induction false} EndFramedAnywhere(s: seq<int>, out: seq<Event>, pos: nat, pos': nat, limit: nat, tagged: bool, v: Variant)
    requires out == [] || out == [Newline]
    requires Framed(s, out, pos, Open, limit, tagged, v)
    ensures Framed(s, out, pos', Open, limit, tagged, v)
  {
    if out == [Newline] {
      assert out[1..] == [];
    }
  }

  lemma {:induction false} TextIsFramed(s: seq<int>, i: nat, j: nat, start: nat, count: nat, limit: nat, tagged: bool, v: Variant)
    requires limit >= 1 && start <= i < |s| && IsText(s[start..i], count)
    requires NextPiece(s[i..]).Text? && j == i + NextPiece(s[i..]).len
    ensures Framed(s, Emit(s, i, start, count, limit, tagged, v), if count >= limit then i else start,
                   if count >= limit then Open else Closed, limit, tagged, v) == true
    decreases |s| - i, 0
  {
    EmitText(s, i, j, start, count, limit, tagged, v);
    TextAt(s, i, j);
    TextGrows(s, start, i, j, count);
    EmitIsFramed(s, j, start, count + 1, limit, tagged, v);
    FlushIsFramed(s, start, i, j, count, limit, tagged, v, Emit(s, j, start, count + 1, limit, tagged, v));
  }

  lemma {:induction false} BreakIsFramed(s: seq<int>, i: nat, j: nat, start: nat, count: nat, limit: nat, tagged: bool, v: Variant)
    requires limit >= 1 && start <= i < |s|
    requires NextPiece(s[i..]).Unprintable? || NextPiece(s[i..]).Invalid?
    requires j == i + Advance(NextPiece(s[i..]), v)
    ensures Framed(s, Emit(s, i, start, count, limit, tagged, v), if count >= limit then i else start,
                   if count >= limit then Open else Closed, limit, tagged, v) == true
    decreases |s| - i, 0
  {
    EmitBreak(s, i, j, start, count, limit, tagged, v);
    assert s[j..j] == [];
    var rest := Emit(s, j, j, 0, limit, tagged, v);
    EmitIsFramed(s, j, j, 0, limit, tagged, v);
    var pos := if count >= limit then i else start;
    ClosedFrom(s, rest, j, pos, limit, tagged, v);
    NewlineIsFramed(s, pos, count >= limit, limit, tagged, v, rest);
  }

  /** Emit at a printable character. */
  lemma {:induction false} EmitText(s: seq<int>, i: nat, j: nat, start: nat, count: nat, limit: nat, tagged: bool, v: Variant)
    requires start <= i < |s| && NextPiece(s[i..]).Text? && j == i + NextPiece(s[i..]).len
    ensures j <= |s|
    ensures Emit(s, i, start, count, limit, tagged, v) ==
      Flush(s, start, i, j, count + 1, limit, tagged) + Emit(s, j, start, count + 1, limit, tagged, v)
  {
  }

  /** A Text piece inside the input is a printable character. */
  lemma {:induction false} TextAt(s: seq<int>, i: nat, j: nat)
    requires i < |s| && NextPiece(s[i..]).Text? && j == i + NextPiece(s[i..]).len
    ensures j <= |s| && IsChar(s[i..j]) && IsPrintable(Decode(s[i..j]))
  {
    PieceFacts(s[i..]);
    assert s[i..][..j - i] == s[i..j];
  }

  /** Emit at a piece that ends the run. */
  lemma {:induction false} EmitBreak(s: seq<int>, i: nat, j: nat, start: nat, count: nat, limit: nat, tagged: bool, v: Variant)
    requires start <= i < |s|
    requires NextPiece(s[i..]).Unprintable? || NextPiece(s[i..]).Invalid?
    requires j == i + Advance(NextPiece(s[i..]), v)
    ensures j <= |s|
    ensures Emit(s, i, start, count, limit, tagged, v) ==
      (if count >= limit then [Newline] else []) + Emit(s, j, j, 0, limit, tagged, v)
  {
  }

  /** A newline, written only when a run is open, closes it. */
  lemma {:induction false} NewlineIsFramed(s: seq<int>, pos: nat, open: bool, limit: nat, tagged: bool, v: Variant, rest: seq<Event>)
    requires Framed(s, rest, pos, Closed, limit, tagged, v)
    ensures Framed(s, (if open then [Newline] else []) + rest, pos, if open then Open else Closed, limit, tagged, v) == true
  {
    if open {
      var out := [Newline] + rest;
      assert out[1..] == rest;
    } else {
      assert [] + rest == rest;
    }
  }

  /** Adding the printable character s[i..j] to a run of `count` characters
      gives one of `count + 1`. */
  lemma {:induction false} TextGrows(s: seq<int>, start: nat, i: nat, j: nat, count: nat)
    requires start <= i < j <= |s| && IsText(s[start..i], count)
    requires IsChar(s[i..j]) && IsPrintable(Decode(s[i..j]))
    ensures IsText(s[start..j], count + 1) && IsText(s[i..j], 1)
  {
    SingleText(s[i..j]);
    assert s[start..j] == s[start..i] + s[i..j];
    TextAppend(s[start..i], count, s[i..j]);
  }

  lemma {:induction false} SingleText(c: seq<int>)
    requires IsChar(c) && IsPrintable(Decode(c))
    ensures IsText(c, 1)
  {
    assert c[..|c|] == c;
    CharPiece(c, |c|);
    assert c[|c|..] == [];
  }

  lemma {:induction false} DropAppend(d: seq<int>, c: seq<int>, k: nat)
    requires k <= |d|
    ensures (d + c)[k..] == d[k..] + c
  {
  }

  lemma {:induction false} TextAppend(d: seq<int>, n: nat, c: seq<int>)
    requires IsText(d, n) && IsText(c, 1)
    ensures IsText(d + c, n + 1)
    decreases |d|
  {
    if d == [] {
      assert d + c == c;
    } else {
      var k := NextPiece(d).len;
      PieceFacts(d);
      assert (d + c)[..k] == d[..k];
      CharPiece(d + c, k);
      DropAppend(d, c, k);
      TextAppend(d[k..], n - 1, c);
    }
  }

  /** The events one printable character adds keep the output framed. */
  lemma {:induction false} FlushIsFramed(s: seq<int>, start: nat, i: nat, j: nat, count: nat, limit: nat, tagged: bool, v: Variant, rest: seq<Event>)
    requires limit >= 1 && start <= i < j <= |s|
    requires IsText(s[start..j], count + 1) && IsText(s[i..j], 1)
    requires Framed(s, rest, if count + 1 >= limit then j else start, if count + 1 >= limit then Open else Closed, limit, tagged, v)
    ensures Framed(s, Flush(s, start, i, j, count + 1, limit, tagged) + rest, if count >= limit then i else start,
                   if count >= limit then Open else Closed, limit, tagged, v) == true
  {
    if count + 1 == limit {
      OpeningIsFramed(s, start, j, limit, tagged, v, rest);
    } else if count + 1 > limit {
      var out := [Bytes(s[i..j])] + rest;
      assert out[1..] == rest;
      assert i + |s[i..j]| == j;
    } else {
      assert Flush(s, start, i, j, count + 1, limit, tagged) + rest == rest;
    }
  }

  /** The chunk that makes a run reach the limit, with its tag: the offset
      of the run's first byte. */
  lemma {:induction false} OpeningIsFramed(s: seq<int>, start: nat, j: nat, limit: nat, tagged: bool, v: Variant, rest: seq<Event>)
    requires start <= j <= |s| && IsText(s[start..j], limit)
    requires Framed(s, rest, j, Open, limit, tagged, v)
    ensures Framed(s, (if tagged then [Tag(start)] else []) + [Bytes(s[start..j])] + rest, start, Closed, limit, tagged, v)
  {
    var d := s[start..j];
    var bytes := [Bytes(d)] + rest;
    assert bytes[1..] == rest;
    assert start + |d| == j;
    if tagged {
      assert Framed(s, bytes, start, Opening, limit, tagged, v);
      var out := [Tag(start)] + bytes;
      assert out[1..] == bytes;
      assert out == [Tag(start)] + [Bytes(d)] + rest;
    } else {
      assert s[j - |d|..j] == d;
      assert bytes == [] + [Bytes(d)] + rest;
    }
  }
}
