/** `extract_strings` of u8strings.c (u8strings.c:83-161): the input is
    decoded byte by byte with the table-driven automaton of module Dfa, and
    every run of at least `limit` consecutive printable characters is
    written out, preceded by its offset when a radix was chosen and
    followed by a newline. A byte the automaton rejects is read again as
    the first byte of a new character.

    The method ExtractStrings keeps the C function's variables and its
    buffer of `limit * 4` bytes; it is proved equal to Extract, the same
    loop body stated as a function (Feed) folded over the input (Out).

    Main result: ExtractIsExpected, the output is the one Runs.Expected
    describes for the Resync variant. */
module U8Strings {
  import opened Utf8
  import opened Dfa
  import opened Printable
  import opened Runs
  import opened Scanners

  /** After a rejection the run is reset and the byte is decoded again from
      ACCEPT (u8strings.c:130-145): an unprintable character and a byte
      that begins none are dropped, anything else is buffered. */
  function Restart(b: int, offset: nat, limit: nat, tagged: bool): (Scanner, seq<Event>)
    requires IsByte(b)
  {
    var t := ByteClass(b);
    var reset := Scanner(Transition(ACCEPT, t), Seed(b, t), [], 0, true, offset);
    if reset.state == ACCEPT && !IsPrintable(reset.codep) then (reset, [])
    else if reset.state == REJECT then (reset.(state := ACCEPT), [])
    else Store(reset, b, limit, tagged)
  }

  /** One pass of the loop body for byte `b` (u8strings.c:108-159): the
      offset moves on, the automaton steps, and a completed unprintable
      character counts as a rejection, which ends a run that was written
      with a newline. */
  function Feed(sc: Scanner, b: int, limit: nat, tagged: bool): (Scanner, seq<Event>)
    requires IsState(sc.state) && IsByte(b)
  {
    var offset := if tagged then sc.offset + 1 else sc.offset;
    var r := Step(sc.state, sc.codep, b);
    if r.0 == REJECT || (r.0 == ACCEPT && !IsPrintable(r.1)) then
      var restart := Restart(b, offset, limit, tagged);
      (restart.0, (if sc.nchars >= limit then [Newline] else []) + restart.1)
    else
      Store(Scanner(r.0, r.1, sc.buffer, sc.nchars, sc.newRun, offset), b, limit, tagged)
  }

  /** Everything written from scanner `sc` on, once the first `k` bytes of
      the input have been read, including the newline that ends a run at
      the end of input (u8strings.c:160-161). */
  function Out(sc: Scanner, input: seq<int>, k: nat, limit: nat, tagged: bool): seq<Event>
    requires IsState(sc.state) && IsBytes(input) && k <= |input|
    decreases |input| - k, 1
  {
    if k == |input| then
      if sc.nchars >= limit then [Newline] else []
    else
      Next(sc, input, k, limit, tagged)
  }

  /** What is written from byte `k` on, when there is one: the loop body's
      pass over it, then the rest. */
  function Next(sc: Scanner, input: seq<int>, k: nat, limit: nat, tagged: bool): seq<Event>
    requires IsState(sc.state) && IsBytes(input) && k < |input|
    decreases |input| - k, 0
  {
    var next := Feed(sc, input[k], limit, tagged);
    next.1 + Out(next.0, input, k + 1, limit, tagged)
  }

  /** Out over one more byte: the loop body's pass, then the rest. */
  lemma {:induction false} OutStep(sc: Scanner, input: seq<int>, k: nat, limit: nat, tagged: bool)
    requires IsState(sc.state) && IsBytes(input) && k < |input|
    ensures var next := Feed(sc, input[k], limit, tagged);
      Out(sc, input, k, limit, tagged) == next.1 + Out(next.0, input, k + 1, limit, tagged)
  {
  }

  /** One byte further into the input, the output so far and the output
      still to come still make up the whole. */
  lemma {:induction false} LoopStep(out: seq<Event>, sc: Scanner, sc': Scanner, written: seq<Event>,
                 input: seq<int>, k: nat, limit: nat, tagged: bool)
    requires IsState(sc.state) && IsBytes(input) && k < |input|
    requires out + Out(sc, input, k, limit, tagged) == Extract(input, limit, tagged)
    requires (sc', written) == Feed(sc, input[k], limit, tagged)
    ensures (out + written) + Out(sc', input, k + 1, limit, tagged) == Extract(input, limit, tagged)
  {
  }

  /** A byte the decoder does not reject is stored. An unfolding step for
      the proofs: it restates one branch of Feed. */
  lemma {:induction false} FeedKeeps(sc: Scanner, b: int, limit: nat, tagged: bool)
    requires IsState(sc.state) && IsByte(b)
    requires var r := Step(sc.state, sc.codep, b); r.0 != REJECT && (r.0 == ACCEPT ==> IsPrintable(r.1))
    ensures var r := Step(sc.state, sc.codep, b);
      Feed(sc, b, limit, tagged) ==
        Store(Scanner(r.0, r.1, sc.buffer, sc.nchars, sc.newRun, if tagged then sc.offset + 1 else sc.offset), b, limit, tagged)
  {
  }

  /** A byte the decoder rejects ends the run and is decoded again. An
      unfolding step for the proofs: it restates one branch of Feed. */
  lemma {:induction false} FeedRestarts(sc: Scanner, b: int, limit: nat, tagged: bool)
    requires IsState(sc.state) && IsByte(b)
    requires var r := Step(sc.state, sc.codep, b); r.0 == REJECT || (r.0 == ACCEPT && !IsPrintable(r.1))
    ensures var restart := Restart(b, if tagged then sc.offset + 1 else sc.offset, limit, tagged);
      Feed(sc, b, limit, tagged) == (restart.0, (if sc.nchars >= limit then [Newline] else []) + restart.1)
  {
  }

  /** A byte that, read from ACCEPT, is neither rejected nor an
      unprintable character is stored at the start of a new run. An
      unfolding step for the proofs: it restates one branch of Restart. */
  lemma {:induction false} RestartKeeps(b: int, offset: nat, limit: nat, tagged: bool)
    requires IsByte(b)
    requires var t := ByteClass(b); var q := Transition(ACCEPT, t);
      q != REJECT && (q == ACCEPT ==> IsPrintable(Seed(b, t)))
    ensures var t := ByteClass(b);
      Restart(b, offset, limit, tagged) == Store(Scanner(Transition(ACCEPT, t), Seed(b, t), [], 0, true, offset), b, limit, tagged)
  {
  }

  /** The output of extract_strings for a whole input. */
  function Extract(input: seq<int>, limit: nat, tagged: bool): seq<Event>
    requires IsBytes(input)
  {
    Out(Init, input, 0, limit, tagged)
  }

  /** extract_strings over the bytes `input` of one file; `tagged` stands
      for a non-zero radix. */
  method ExtractStrings(input: seq<int>, limit: nat, tagged: bool) returns (out: seq<Event>)
    requires limit >= 1 && IsBytes(input)
    ensures out == Extract(input, limit, tagged)
  {
    var offset: nat := 0;
    var state := ACCEPT;
    var codep := 0;
    var nbytes := 0;
    var nchars: nat := 0;
    var newRun := true;
    var buffer := new int[limit * 4];
    out := [];
    var k := 0;
    assert buffer[..nbytes] == [];
    while k < |input|
      invariant 0 <= k <= |input| && buffer.Length == limit * 4 && 0 <= nbytes <= buffer.Length
      invariant Fits(Scanner(state, codep, buffer[..nbytes], nchars, newRun, offset), nbytes, limit, tagged, k)
      invariant out + Out(Scanner(state, codep, buffer[..nbytes], nchars, newRun, offset), input, k, limit, tagged)
        == Extract(input, limit, tagged)
    {
      ghost var sc := Scanner(state, codep, buffer[..nbytes], nchars, newRun, offset);
      var written;
      state, codep, nbytes, nchars, newRun, offset, written :=
        ReadByte(buffer, state, codep, nbytes, nchars, newRun, offset, input[k], limit, tagged, k);
      ghost var sc' := Scanner(state, codep, buffer[..nbytes], nchars, newRun, offset);
      FeedFits(sc, input[k], limit, tagged, k);
      LoopStep(out, sc, sc', written, input, k, limit, tagged);
      out := out + written;
      k := k + 1;
    }
    if nchars >= limit {
      out := out + [Newline];
    }
  }

  /** The buffer of `limit * 4` bytes never overflows: every byte keeps the
      scanner within Fits. */
  lemma {:induction false} FeedFits(sc: Scanner, b: int, limit: nat, tagged: bool, k: nat)
    requires limit >= 1 && IsByte(b) && Fits(sc, |sc.buffer|, limit, tagged, k)
    ensures var next := Feed(sc, b, limit, tagged).0;
      Fits(next, |next.buffer|, limit, tagged, k + 1)
  {
    var r := Step(sc.state, sc.codep, b);
    var offset := if tagged then sc.offset + 1 else sc.offset;
    if r.0 == REJECT || (r.0 == ACCEPT && !IsPrintable(r.1)) {
      FeedRestarts(sc, b, limit, tagged);
      RestartFits(b, offset, limit, tagged, k);
    } else {
      FeedKeeps(sc, b, limit, tagged);
      PendingGrows(sc.state, ByteClass(b));
      StoreFits(Scanner(r.0, r.1, sc.buffer, sc.nchars, sc.newRun, offset), b, limit, tagged, k);
    }
  }

  /** A new run starts with at most the one byte just read. */
  lemma {:induction false} RestartFits(b: int, offset: nat, limit: nat, tagged: bool, k: nat)
    requires limit >= 1 && IsByte(b) && offset == (if tagged then k + 1 else 0)
    ensures var next := Restart(b, offset, limit, tagged).0;
      Fits(next, |next.buffer|, limit, tagged, k + 1)
  {
    PendingGrows(ACCEPT, ByteClass(b));
  }

  /** One pass of the loop body of extract_strings (u8strings.c:108-159)
      for byte `b`, the `k + 1`-th of the input: it computes Feed. */
  method ReadByte(buffer: array<int>, state: int, codep: int, nbytes: int, nchars: nat, newRun: bool, offset: nat,
                  b: int, limit: nat, tagged: bool, ghost k: nat)
    returns (state': int, codep': int, nbytes': int, nchars': nat, newRun': bool, offset': nat, written: seq<Event>)
    requires limit >= 1 && buffer.Length == limit * 4 && IsByte(b) && 0 <= nbytes <= buffer.Length
    requires Fits(Scanner(state, codep, buffer[..nbytes], nchars, newRun, offset), nbytes, limit, tagged, k)
    modifies buffer
    ensures 0 <= nbytes' <= buffer.Length
    ensures (Scanner(state', codep', buffer[..nbytes'], nchars', newRun', offset'), written)
      == Feed(Scanner(state, codep, old(buffer[..nbytes]), nchars, newRun, offset), b, limit, tagged)
  {
    ghost var sc := Scanner(state, codep, buffer[..nbytes], nchars, newRun, offset);
    offset' := if tagged then offset + 1 else offset;
    var t := ByteClass(b);
    PendingGrows(state, t);
    codep' := if state == ACCEPT then Seed(b, t) else Shift(codep, b);
    state' := Transition(state, t);
    if state' == ACCEPT && !IsPrintable(codep') {
      state' := REJECT;
    }
    if state' == REJECT {
      FeedRestarts(sc, b, limit, tagged);
      var restarted;
      state', codep', nbytes', nchars', newRun', restarted := Resync(buffer, b, offset', limit, tagged);
      written := (if nchars >= limit then [Newline] else []) + restarted;
    } else {
      FeedKeeps(sc, b, limit, tagged);
      state', codep', nbytes', nchars', newRun', offset', written :=
        StoreByte(buffer, state', codep', nbytes, nchars, newRun, offset', b, limit, tagged);
    }
  }

  /** After a rejection (u8strings.c:130-145): the run is reset and `b` is
      decoded again from ACCEPT, with `continue` written as `return`; it
      computes Restart. */
  method Resync(buffer: array<int>, b: int, offset: nat, limit: nat, tagged: bool)
    returns (state': int, codep': int, nbytes': int, nchars': nat, newRun': bool, written: seq<Event>)
    requires 1 <= buffer.Length && IsByte(b)
    modifies buffer
    ensures 0 <= nbytes' <= buffer.Length
    ensures (Scanner(state', codep', buffer[..nbytes'], nchars', newRun', offset), written)
      == Restart(b, offset, limit, tagged)
  {
    nbytes', nchars', newRun' := 0, 0, true;
    var t := ByteClass(b);
    codep' := Seed(b, t);
    state' := Transition(ACCEPT, t);
    assert buffer[..nbytes'] == [];
    if state' == ACCEPT && !IsPrintable(codep') {
      written := [];
      return;
    }
    if state' == REJECT {
      state' := ACCEPT;
      written := [];
      return;
    }
    RestartKeeps(b, offset, limit, tagged);
    var offset';
    state', codep', nbytes', nchars', newRun', offset', written :=
      StoreByte(buffer, state', codep', nbytes', nchars', newRun', offset, b, limit, tagged);
  }
}
