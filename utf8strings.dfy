/** `extract_strings` of utf8strings.c (utf8strings.c:54-127), the sibling
    of u8strings.c built on the same decoder, with three differences:
    - the byte classes and the transitions are one array of 400 entries
      (utf8strings.c:37-52), the transitions from entry 256 on;
    - the printability test is written inline (utf8strings.c:98-105);
    - a byte the automaton rejects is dropped, not decoded again, and the
      end of input writes no newline (utf8strings.c:106-113, 127).

    The method ExtractStrings keeps the C function's variables and its
    buffer of `limit * 4` bytes; it is proved equal to Extract, the loop
    body stated as a function (Feed) folded over the input (Out).

    Main result: Utf8StringsExpected.ExtractIsExpected, the output is the
    one Runs.Expected describes for the Drop variant. */
module Utf8Strings {
  import opened Utf8
  import opened Dfa
  import opened Printable
  import opened Runs
  import opened Scanners

  /** `utf8d` of utf8strings.c:37-52, sixteen entries per row: rows 0 to 15
      are the classes of the byte values, rows 16 to 24 the transitions of
      states 0 to 8. */
  function MergedRow(r: int): (row: seq<int>)
    requires 0 <= r < 25
    ensures |row| == 16
  {
    match r
    case 0 => [0, 0, 0, 0, 0, 0, 0, 0, 0, 0, 0, 0, 0, 0, 0, 0]  // 0x00 .. 0x0F
    case 1 => [0, 0, 0, 0, 0, 0, 0, 0, 0, 0, 0, 0, 0, 0, 0, 0]  // 0x10 .. 0x1F
    case 2 => [0, 0, 0, 0, 0, 0, 0, 0, 0, 0, 0, 0, 0, 0, 0, 0]  // 0x20 .. 0x2F
    case 3 => [0, 0, 0, 0, 0, 0, 0, 0, 0, 0, 0, 0, 0, 0, 0, 0]  // 0x30 .. 0x3F
    case 4 => [0, 0, 0, 0, 0, 0, 0, 0, 0, 0, 0, 0, 0, 0, 0, 0]  // 0x40 .. 0x4F
    case 5 => [0, 0, 0, 0, 0, 0, 0, 0, 0, 0, 0, 0, 0, 0, 0, 0]  // 0x50 .. 0x5F
    case 6 => [0, 0, 0, 0, 0, 0, 0, 0, 0, 0, 0, 0, 0, 0, 0, 0]  // 0x60 .. 0x6F
    case 7 => [0, 0, 0, 0, 0, 0, 0, 0, 0, 0, 0, 0, 0, 0, 0, 0]  // 0x70 .. 0x7F
    case 8 => [1, 1, 1, 1, 1, 1, 1, 1, 1, 1, 1, 1, 1, 1, 1, 1]  // 0x80 .. 0x8F
    case 9 => [9, 9, 9, 9, 9, 9, 9, 9, 9, 9, 9, 9, 9, 9, 9, 9]  // 0x90 .. 0x9F
    case 10 => [7, 7, 7, 7, 7, 7, 7, 7, 7, 7, 7, 7, 7, 7, 7, 7]  // 0xA0 .. 0xAF
    case 11 => [7, 7, 7, 7, 7, 7, 7, 7, 7, 7, 7, 7, 7, 7, 7, 7]  // 0xB0 .. 0xBF
    case 12 => [8, 8, 2, 2, 2, 2, 2, 2, 2, 2, 2, 2, 2, 2, 2, 2]  // 0xC0 .. 0xCF
    case 13 => [2, 2, 2, 2, 2, 2, 2, 2, 2, 2, 2, 2, 2, 2, 2, 2]  // 0xD0 .. 0xDF
    case 14 => [0xa, 0x3, 0x3, 0x3, 0x3, 0x3, 0x3, 0x3, 0x3, 0x3, 0x3, 0x3, 0x3, 0x4, 0x3, 0x3]  // 0xE0 .. 0xEF
    case 15 => [0xb, 0x6, 0x6, 0x6, 0x5, 0x8, 0x8, 0x8, 0x8, 0x8, 0x8, 0x8, 0x8, 0x8, 0x8, 0x8]  // 0xF0 .. 0xFF
    case 16 => [0x0, 0x1, 0x2, 0x3, 0x5, 0x8, 0x7, 0x1, 0x1, 0x1, 0x4, 0x6, 0x1, 0x1, 0x1, 0x1]  // s0
    case 17 => [1, 1, 1, 1, 1, 1, 1, 1, 1, 1, 1, 1, 1, 1, 1, 1]  // s1
    case 18 => [1, 0, 1, 1, 1, 1, 1, 0, 1, 0, 1, 1, 1, 1, 1, 1]  // s2
    case 19 => [1, 2, 1, 1, 1, 1, 1, 2, 1, 2, 1, 1, 1, 1, 1, 1]  // s3
    case 20 => [1, 1, 1, 1, 1, 1, 1, 2, 1, 1, 1, 1, 1, 1, 1, 1]  // s4
    case 21 => [1, 2, 1, 1, 1, 1, 1, 1, 1, 2, 1, 1, 1, 1, 1, 1]  // s5
    case 22 => [1, 1, 1, 1, 1, 1, 1, 3, 1, 3, 1, 1, 1, 1, 1, 1]  // s6
    case 23 => [1, 3, 1, 1, 1, 1, 1, 3, 1, 3, 1, 1, 1, 1, 1, 1]  // s7
    case _ => [1, 3, 1, 1, 1, 1, 1, 1, 1, 1, 1, 1, 1, 1, 1, 1]  // s8
  }

  /** Entry `i` of `utf8d`. */
  function Utf8d(i: int): int
    requires 0 <= i < 400
  {
    MergedRow(i / 16)[i % 16]
  }

  /** The first 256 entries are the byte classes of u8strings.c. */
  lemma {:induction false} ClassRowsAgree(r: int)
    requires 0 <= r < 16
    ensures MergedRow(r) == Utf8dRow(r)
  {
  }

  /** The rest are the transitions of u8strings.c. */
  lemma {:induction false} TransitionRowsAgree(q: int)
    requires 0 <= q < 9
    ensures MergedRow(16 + q) == Utf8tRow(q)
  {
  }

  /** `utf8d[byte]` (utf8strings.c:93) is the byte's class. */
  lemma {:induction false} ClassLookup(b: int)
    requires IsByte(b)
    ensures Utf8d(b) == ByteClass(b)
  {
    ClassRowsAgree(b / 16);
    ByteClassIsTable(b);
  }

  /** `utf8d[256 + state * 16 + type]` (utf8strings.c:97) reads at most
      entry 395 (state 8, class 11) of the 400, and is the transition. */
  lemma {:induction false} TransitionLookup(q: int, t: int)
    requires IsState(q) && 0 <= t <= 11
    ensures 256 + q * 16 + t <= 395 && Utf8d(256 + q * 16 + t) == Transition(q, t)
  {
    var i := 256 + q * 16 + t;
    assert i / 16 == 16 + q && i % 16 == t by {
      assert i == (16 + q) * 16 + t;
    }
    assert Utf8d(i) == MergedRow(16 + q)[t];
    TransitionRowsAgree(q);
    TransitionIsTable(q, t);
  }

  /** One pass of the loop body for byte `b` (utf8strings.c:82-126): the
      offset moves on, the automaton steps, and a rejected byte or a
      completed unprintable character ends the run, with a newline if it
      was written; the byte itself is dropped and the accumulator keeps
      its value. */
  function Feed(sc: Scanner, b: int, limit: nat, tagged: bool): (Scanner, seq<Event>)
    requires IsState(sc.state) && IsByte(b)
  {
    var offset := if tagged then sc.offset + 1 else sc.offset;
    var r := Step(sc.state, sc.codep, b);
    if r.0 == REJECT || (r.0 == ACCEPT && !IsPrintable(r.1)) then
      (Scanner(ACCEPT, r.1, [], 0, true, offset), if sc.nchars >= limit then [Newline] else [])
    else
      Store(Scanner(r.0, r.1, sc.buffer, sc.nchars, sc.newRun, offset), b, limit, tagged)
  }

  /** Everything written from scanner `sc` on, once the first `k` bytes of
      the input have been read; the end of input writes nothing
      (utf8strings.c:127-131). */
  function Out(sc: Scanner, input: seq<int>, k: nat, limit: nat, tagged: bool): seq<Event>
    requires IsState(sc.state) && IsBytes(input) && k <= |input|
    decreases |input| - k, 1
  {
    if k == |input| then [] else Next(sc, input, k, limit, tagged)
  }

  /** What is written from byte `k` on, when there is one: the loop body's
      pass over it, then the rest. */
  function Next(sc: Scanner, input: seq<int>, k: nat, limit: nat, tagged: bool): seq<Event>
    requires IsState(sc.state) && IsBytes(input) && k < |input|
    decreases |input| - k, 0
  {
    var next := Feed(sc, input[k], limit, tagged);
    next.1 + Out(next.0, input, k + 1, limit, tagged)
  }

  /** Out over one more byte: the loop body's pass, then the rest. */
  lemma {:induction false} OutStep(sc: Scanner, input: seq<int>, k: nat, limit: nat, tagged: bool)
    requires IsState(sc.state) && IsBytes(input) && k < |input|
    ensures var next := Feed(sc, input[k], limit, tagged);
      Out(sc, input, k, limit, tagged) == next.1 + Out(next.0, input, k + 1, limit, tagged)
  {
  }

  /** One byte further into the input, the output so far and the output
      still to come still make up the whole. */
  lemma {:induction false} LoopStep(out: seq<Event>, sc: Scanner, sc': Scanner, written: seq<Event>,
                 input: seq<int>, k: nat, limit: nat, tagged: bool)
    requires IsState(sc.state) && IsBytes(input) && k < |input|
    requires out + Out(sc, input, k, limit, tagged) == Extract(input, limit, tagged)
    requires (sc', written) == Feed(sc, input[k], limit, tagged)
    ensures (out + written) + Out(sc', input, k + 1, limit, tagged) == Extract(input, limit, tagged)
  {
  }

  /** A byte the decoder does not refuse is stored. An unfolding step for
      the proofs: it restates one branch of Feed. */
  lemma {:induction false} FeedKeeps(sc: Scanner, b: int, limit: nat, tagged: bool)
    requires IsState(sc.state) && IsByte(b)
    requires var r := Step(sc.state, sc.codep, b); r.0 != REJECT && (r.0 == ACCEPT ==> IsPrintable(r.1))
    ensures var r := Step(sc.state, sc.codep, b);
      Feed(sc, b, limit, tagged) ==
        Store(Scanner(r.0, r.1, sc.buffer, sc.nchars, sc.newRun, if tagged then sc.offset + 1 else sc.offset), b, limit, tagged)
  {
  }

  /** A byte the decoder refuses ends the run and is not kept. An
      unfolding step for the proofs: it restates one branch of Feed. */
  lemma {:induction false} FeedDrops(sc: Scanner, b: int, limit: nat, tagged: bool)
    requires IsState(sc.state) && IsByte(b)
    requires var r := Step(sc.state, sc.codep, b); r.0 == REJECT || (r.0 == ACCEPT && !IsPrintable(r.1))
    ensures Feed(sc, b, limit, tagged)
      == (Scanner(ACCEPT, Step(sc.state, sc.codep, b).1, [], 0, true, if tagged then sc.offset + 1 else sc.offset),
          if sc.nchars >= limit then [Newline] else [])
  {
  }

  /** The output of extract_strings for a whole input. */
  function Extract(input: seq<int>, limit: nat, tagged: bool): seq<Event>
    requires IsBytes(input)
  {
    Out(Init, input, 0, limit, tagged)
  }

  /** extract_strings over the bytes `input` of one file; `tagged` stands
      for a non-zero radix. */
  method ExtractStrings(input: seq<int>, limit: nat, tagged: bool) returns (out: seq<Event>)
    requires limit >= 1 && IsBytes(input)
    ensures out == Extract(input, limit, tagged)
  {
    var offset: nat := 0;
    var state := ACCEPT;
    var codep := 0;
    var nbytes := 0;
    var nchars: nat := 0;
    var newRun := true;
    var buffer := new int[limit * 4];
    out := [];
    var k := 0;
    assert buffer[..nbytes] == [];
    while k < |input|
      invariant 0 <= k <= |input| && buffer.Length == limit * 4 && 0 <= nbytes <= buffer.Length
      invariant Fits(Scanner(state, codep, buffer[..nbytes], nchars, newRun, offset), nbytes, limit, tagged, k)
      invariant out + Out(Scanner(state, codep, buffer[..nbytes], nchars, newRun, offset), input, k, limit, tagged)
        == Extract(input, limit, tagged)
    {
      ghost var sc := Scanner(state, codep, buffer[..nbytes], nchars, newRun, offset);
      var written;
      state, codep, nbytes, nchars, newRun, offset, written :=
        ReadByte(buffer, state, codep, nbytes, nchars, newRun, offset, input[k], limit, tagged, k);
      ghost var sc' := Scanner(state, codep, buffer[..nbytes], nchars, newRun, offset);
      FeedFits(sc, input[k], limit, tagged, k);
      LoopStep(out, sc, sc', written, input, k, limit, tagged);
      out := out + written;
      k := k + 1;
    }
  }

  /** The buffer of `limit * 4` bytes never overflows: every byte keeps the
      scanner within Fits. */
  lemma {:induction false} FeedFits(sc: Scanner, b: int, limit: nat, tagged: bool, k: nat)
    requires limit >= 1 && IsByte(b) && Fits(sc, |sc.buffer|, limit, tagged, k)
    ensures var next := Feed(sc, b, limit, tagged).0;
      Fits(next, |next.buffer|, limit, tagged, k + 1)
  {
    var r := Step(sc.state, sc.codep, b);
    var offset := if tagged then sc.offset + 1 else sc.offset;
    if r.0 == REJECT || (r.0 == ACCEPT && !IsPrintable(r.1)) {
      FeedDrops(sc, b, limit, tagged);
    } else {
      FeedKeeps(sc, b, limit, tagged);
      PendingGrows(sc.state, ByteClass(b));
      StoreFits(Scanner(r.0, r.1, sc.buffer, sc.nchars, sc.newRun, offset), b, limit, tagged, k);
    }
  }

  /** The decoding step of the loop body (utf8strings.c:92-97), with both
      lookups in the one table: it computes Step. */
  method StepByte(state: int, codep: int, b: int) returns (state': int, codep': int)
    requires IsState(state) && IsByte(b)
    ensures (state', codep') == Step(state, codep, b)
  {
    ClassLookup(b);
    var t := Utf8d(b);
    codep' := if state != ACCEPT then Shift(codep, b) else Seed(b, t);
    TransitionLookup(state, t);
    state' := Utf8d(256 + state * 16 + t);
  }

  /** The inline printability test (utf8strings.c:98-105): a character
      completed with a code point IsPrintable refuses is turned into a
      rejection, and every other state is left alone. */
  method Screen(state: int, codep: int) returns (state': int)
    ensures state' == if state == ACCEPT && !IsPrintable(codep) then REJECT else state
  {
    state' := state;
    if state == ACCEPT {
      if codep == 0x09 {
      } else if codep < 0x20 {
        state' := REJECT;
      } else if 0x7F <= codep < 0xA0 {
        state' := REJECT;
      }
    }
  }

  /** One pass of the loop body of extract_strings (utf8strings.c:82-126)
      for byte `b`, the `k + 1`-th of the input: StepByte, Screen, then
      the end of the run or StoreByte, with `continue` written as `return`.
      It computes Feed. */
  method ReadByte(buffer: array<int>, state: int, codep: int, nbytes: int, nchars: nat, newRun: bool, offset: nat,
                  b: int, limit: nat, tagged: bool, ghost k: nat)
    returns (state': int, codep': int, nbytes': int, nchars': nat, newRun': bool, offset': nat, written: seq<Event>)
    requires limit >= 1 && buffer.Length == limit * 4 && IsByte(b) && 0 <= nbytes <= buffer.Length
    requires Fits(Scanner(state, codep, buffer[..nbytes], nchars, newRun, offset), nbytes, limit, tagged, k)
    modifies buffer
    ensures 0 <= nbytes' <= buffer.Length
    ensures (Scanner(state', codep', buffer[..nbytes'], nchars', newRun', offset'), written)
      == Feed(Scanner(state, codep, old(buffer[..nbytes]), nchars, newRun, offset), b, limit, tagged)
  {
    ghost var sc := Scanner(state, codep, buffer[..nbytes], nchars, newRun, offset);
    offset' := if tagged then offset + 1 else offset;
    PendingGrows(state, ByteClass(b));
    state', codep' := StepByte(state, codep, b);
    state' := Screen(state', codep');
    if state' == REJECT {
      FeedDrops(sc, b, limit, tagged);
      written := if nchars >= limit then [Newline] else [];
      nbytes', nchars', newRun', state' := 0, 0, true, ACCEPT;
      assert buffer[..nbytes'] == [];
      return;
    }
    FeedKeeps(sc, b, limit, tagged);
    state', codep', nbytes', nchars', newRun', offset', written :=
      StoreByte(buffer, state', codep', nbytes, nchars, newRun, offset', b, limit, tagged);
  }
}
