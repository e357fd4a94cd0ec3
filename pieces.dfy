/** The input read piece by piece, as both correspondence proofs need it:
    how the decoder runs over the bytes of one piece (Decoded), what the
    scanner holds in the middle of a piece (Reading), how Store treats the
    bytes of a piece, and how Emit of module Runs unfolds at each kind of
    piece (Described). */
module Pieces {
  import opened Utf8
  import opened Dfa
  import opened Printable
  import opened Runs
  import opened Scanners

  /** The decoder after the first `k` bytes of the piece at `i`: Run over
      those bytes (DecodedIsRun), one step per byte. */
  function Decoded(s: seq<int>, i: nat, k: nat): (r: (int, int))
    requires IsBytes(s) && i + k <= |s|
    ensures IsState(r.0)
    decreases k
  {
    if k == 0 then (ACCEPT, 0)
    else var r := Decoded(s, i, k - 1); Step(r.0, r.1, s[i + k - 1])
  }

  lemma {:induction false} DecodedIsRun(s: seq<int>, i: nat, k: nat)
    requires IsBytes(s) && i + k <= |s|
    ensures Decoded(s, i, k) == Run(s[i..i + k])
    decreases k
  {
    if k > 0 {
      DecodedIsRun(s, i, k - 1);
      assert s[i..i + k][..k - 1] == s[i..i + k - 1];
    }
  }

  /** The scanner once the first `k` bytes of the piece at `i` have been
      read, inside the run that began at `start` and has `count`
      characters. At the piece's first byte the decoder is in ACCEPT with
      whatever accumulator `codep` the previous byte left; after that it
      has run over the piece's bytes. The buffer holds the run from its
      start until the run is printed, then only the bytes of the character
      being read. */
  function Reading(s: seq<int>, i: nat, k: nat, start: nat, count: nat, codep: int, limit: nat, tagged: bool): Scanner
    requires IsBytes(s) && start <= i && i + k <= |s|
  {
    var r := if k == 0 then (ACCEPT, codep) else Decoded(s, i, k);
    Scanner(r.0, r.1, if count < limit then s[start..i + k] else s[i..i + k],
            if count < limit then count else limit, count < limit, if tagged then i + k else 0)
  }

  /** What Emit describes from the piece at `i` on. The piece-by-piece
      lemmas are stated with this name rather than with Emit itself, so
      that the verifier unfolds Emit's recursion only where a lemma asks
      for it (DescribedText, DescribedBreak, DescribedTruncated). */
  function Described(s: seq<int>, i: nat, start: nat, count: nat, limit: nat, tagged: bool, v: Variant): seq<Event>
    requires start <= i <= |s|
  {
    Emit(s, i, start, count, limit, tagged, v)
  }

  // ---------------------------------------------------------------------
  // The decoder on one piece


  /** Where the piece at `i` ends, and what its bytes are. */
  lemma {:induction false} PieceAt(s: seq<int>, i: nat)
    requires i < |s|
    ensures var p := NextPiece(s[i..]); var n := p.len;
      1 <= n && i + n <= |s| && (n == 1 || IsPartial(s[i..i + n - 1])) &&
      (p.Text? ==> IsChar(s[i..i + n]) && IsPrintable(Decode(s[i..i + n]))) &&
      (p.Unprintable? ==> IsChar(s[i..i + n]) && !IsPrintable(Decode(s[i..i + n]))) &&
      (p.Invalid? ==> !IsChar(s[i..i + n]) && !IsPartial(s[i..i + n])) &&
      (p.Truncated? ==> i + n == |s| && IsPartial(s[i..]))
  {
    var n := NextPiece(s[i..]).len;
    PieceFacts(s[i..]);
    assert s[i..][..n] == s[i..i + n];
    assert s[i..][..n - 1] == s[i..i + n - 1];
  }

  /** How `n` bytes that continue a character from ACCEPT leave the
      decoder. */
  lemma {:induction false} RunPiece(s: seq<int>, i: nat, n: nat)
    requires IsBytes(s) && 1 <= n && i + n <= |s|
    requires n == 1 || IsPartial(s[i..i + n - 1])
    ensures IsChar(s[i..i + n]) ==> Decoded(s, i, n) == (ACCEPT, Decode(s[i..i + n]))
    ensures IsPartial(s[i..i + n]) ==> Decoded(s, i, n).0 != ACCEPT && Decoded(s, i, n).0 != REJECT
    ensures !IsChar(s[i..i + n]) && !IsPartial(s[i..i + n]) ==> Decoded(s, i, n).0 == REJECT
  {
    var p := s[i..i + n];
    assert p[..n - 1] == s[i..i + n - 1];
    Decodes(p);
    DecodedIsRun(s, i, n);
  }

  /** While a character is partial the decoder neither accepts nor rejects. */
  lemma {:induction false} RunPending(s: seq<int>, i: nat, k: nat, m: nat)
    requires IsBytes(s) && k < m && i + m <= |s| && IsPartial(s[i..i + m])
    ensures var q := Decoded(s, i, k + 1).0; q != ACCEPT && q != REJECT
  {
    assert s[i..i + m][..k + 1] == s[i..i + k + 1];
    PartialPrefix(s[i..i + m], k + 1);
    if k > 0 {
      assert s[i..i + m][..k] == s[i..i + k];
      PartialPrefix(s[i..i + m], k);
    }
    RunPiece(s, i, k + 1);
  }

  /** The last byte of a printable character brings the decoder back to
      ACCEPT with a printable code point. */
  lemma {:induction false} RunText(s: seq<int>, i: nat, n: nat)
    requires IsBytes(s) && i < |s| && NextPiece(s[i..]) == Text(n)
    ensures 1 <= n && i + n <= |s| && (n == 1 || IsPartial(s[i..i + n - 1]))
    ensures Decoded(s, i, n).0 == ACCEPT && IsPrintable(Decoded(s, i, n).1)
  {
    PieceAt(s, i);
    RunPiece(s, i, n);
  }

  /** The last byte of an unprintable character, or a lone byte that begins
      none, is refused. */
  lemma {:induction false} RunBreak(s: seq<int>, i: nat, n: nat)
    requires IsBytes(s) && i < |s| && (NextPiece(s[i..]) == Unprintable(n) || (n == 1 && NextPiece(s[i..]) == Invalid(1)))
    ensures 1 <= n && i + n <= |s| && (n == 1 || IsPartial(s[i..i + n - 1]))
    ensures var r := Decoded(s, i, n); r.0 == REJECT || (r.0 == ACCEPT && !IsPrintable(r.1))
  {
    PieceAt(s, i);
    RunPiece(s, i, n);
  }

  /** The byte that stops a partial character is refused. */
  lemma {:induction false} RunInvalid(s: seq<int>, i: nat, n: nat)
    requires IsBytes(s) && i < |s| && NextPiece(s[i..]) == Invalid(n) && n > 1
    ensures i + n <= |s| && IsPartial(s[i..i + n - 1]) && Decoded(s, i, n).0 == REJECT
  {
    PieceAt(s, i);
    RunPiece(s, i, n);
  }

  // ---------------------------------------------------------------------
  // Storing the bytes of a piece

  /** A byte of a character still partial is buffered, and nothing is
      printed. */
  lemma {:induction false} StorePending(s: seq<int>, i: nat, k: nat, start: nat, count: nat, limit: nat, tagged: bool)
    requires IsBytes(s) && start <= i && i + k < |s| && Decoded(s, i, k + 1).0 != ACCEPT
    ensures var r := Decoded(s, i, k + 1);
      Store(Scanner(r.0, r.1, if count < limit then s[start..i + k] else s[i..i + k],
                    if count < limit then count else limit, count < limit, if tagged then i + k + 1 else 0),
            s[i + k], limit, tagged)
      == (Reading(s, i, k + 1, start, count, 0, limit, tagged), [])
  {
    assert s[start..i + k] + [s[i + k]] == s[start..i + k + 1];
    assert s[i..i + k] + [s[i + k]] == s[i..i + k + 1];
  }

  /** A completed printable character is stored: the run grows by one
      character, and Flush says what is printed. */
  lemma {:induction false} StoreText(s: seq<int>, i: nat, n: nat, start: nat, count: nat, c: int, limit: nat, tagged: bool)
    requires IsBytes(s) && limit >= 1 && start <= i && 1 <= n && i + n <= |s|
    ensures Store(Scanner(ACCEPT, c, if count < limit then s[start..i + n - 1] else s[i..i + n - 1],
                          if count < limit then count else limit, count < limit, if tagged then i + n else 0),
                  s[i + n - 1], limit, tagged)
      == (Reading(s, i + n, 0, start, count + 1, c, limit, tagged), Flush(s, start, i, i + n, count + 1, limit, tagged))
  {
    var b := s[i + n - 1];
    assert s[start..i + n - 1] + [b] == s[start..i + n];
    assert s[i..i + n - 1] + [b] == s[i..i + n];
    assert s[i + n..i + n] == [];
    var sc := Scanner(ACCEPT, c, if count < limit then s[start..i + n - 1] else s[i..i + n - 1],
                      if count < limit then count else limit, count < limit, if tagged then i + n else 0);
    var r := Store(sc, b, limit, tagged);
    var e := Reading(s, i + n, 0, start, count + 1, c, limit, tagged);
    if count + 1 < limit {
      assert r.0 == e;
    } else if count + 1 == limit {
      assert r.0 == e;
    } else {
      assert r.0.buffer == e.buffer;
      assert r.0 == e;
      assert r.1 == Flush(s, start, i, i + n, count + 1, limit, tagged);
    }
  }

  // ---------------------------------------------------------------------
  // The described output, piece by piece


  /** Emit at a printable character. */
  lemma {:induction false} DescribedText(s: seq<int>, i: nat, n: nat, start: nat, count: nat, limit: nat, tagged: bool, v: Variant)
    requires start <= i < |s| && NextPiece(s[i..]) == Text(n)
    ensures i + n <= |s|
    ensures Described(s, i, start, count, limit, tagged, v)
      == Flush(s, start, i, i + n, count + 1, limit, tagged) + Described(s, i + n, start, count + 1, limit, tagged, v)
  {
    EmitText(s, i, i + n, start, count, limit, tagged, v);
  }

  /** Emit at a piece that ends the run. */
  lemma {:induction false} DescribedBreak(s: seq<int>, i: nat, j: nat, start: nat, count: nat, limit: nat, tagged: bool, v: Variant)
    requires start <= i < |s|
    requires NextPiece(s[i..]).Unprintable? || NextPiece(s[i..]).Invalid?
    requires j == i + Advance(NextPiece(s[i..]), v)
    ensures j <= |s|
    ensures Described(s, i, start, count, limit, tagged, v)
      == (if count >= limit then [Newline] else []) + Described(s, j, j, 0, limit, tagged, v)
  {
    EmitBreak(s, i, j, start, count, limit, tagged, v);
  }

  /** Emit at a partial character at the end of input. */
  lemma {:induction false} DescribedTruncated(s: seq<int>, i: nat, n: nat, start: nat, count: nat, limit: nat, tagged: bool, v: Variant)
    requires start <= i < |s| && NextPiece(s[i..]) == Truncated(n)
    ensures Described(s, i, start, count, limit, tagged, v) == if v == Resync && count >= limit then [Newline] else []
  {
    PieceAt(s, i);
    assert Emit(s, |s|, start, count, limit, tagged, v) == if v == Resync && count >= limit then [Newline] else [];
  }

  /** Equal outputs after the same prefix. Sequence plumbing only: it keeps
      the concatenation reasoning out of the lemmas that call it. */
  lemma {:induction false} SamePrefix(p: seq<Event>, d: seq<Event>, p': seq<Event>, d': seq<Event>, prefix: seq<Event>)
    requires p == prefix + p' && d == prefix + d' && p' == d'
    ensures p == d
  {
  }
}
