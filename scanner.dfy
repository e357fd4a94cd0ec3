/** The variables extract_strings carries from one byte to the next, and
    the end of its loop body, which both extractors share (u8strings.c:
    145-158, utf8strings.c:114-126): a byte accepted into the run is
    buffered, and a completed character that brings the run to the limit
    writes the run.

    Main result: StoreByte, the in-place loop tail, computes Store; and
    StoreFits, the buffer of `limit * 4` bytes is large enough. */
module Scanners {
  import opened Dfa
  import opened Runs

  /** The variables the loop carries from one byte to the next
      (u8strings.c:86-93): decoder state and accumulator, the bytes of the
      current run not yet written (`buffer[..nbytes]`), the characters in
      the run so far (capped at the limit), whether the run's offset is
      still to be written (`new`), and the number of bytes read, counted
      only when offsets are written. */
  datatype Scanner = Scanner(state: int, codep: int, buffer: seq<int>, nchars: nat, newRun: bool, offset: nat)

  /** The variables before the first byte (u8strings.c:86-93, 103). */
  const Init := Scanner(ACCEPT, 0, [], 0, true, 0)

  /** The end of the loop body once a byte is accepted into the run
      (u8strings.c:147-158): the byte is buffered, and a completed
      character that brings the run to the limit writes the offset (once
      per run, when tagged) and the buffered bytes. */
  function Store(sc: Scanner, b: int, limit: nat, tagged: bool): (Scanner, seq<Event>) {
    var buffer := sc.buffer + [b];
    if sc.state != ACCEPT then
      (sc.(buffer := buffer), [])
    else if sc.nchars + 1 >= limit then
      var tag := if sc.newRun && tagged then [Tag(sc.offset - |buffer|)] else [];
      (sc.(buffer := [], nchars := limit, newRun := false), tag + [Bytes(buffer)])
    else
      (sc.(buffer := buffer, nchars := sc.nchars + 1), [])
  }

  /** The three ways Store ends, one per branch of u8strings.c:147-158.
      An unfolding step for the proofs, not a property of Store. */
  lemma {:induction false} StoreCases(sc: Scanner, b: int, limit: nat, tagged: bool)
    ensures var r := Store(sc, b, limit, tagged);
      (sc.state != ACCEPT ==> r == (sc.(buffer := sc.buffer + [b]), [])) &&
      (sc.state == ACCEPT && sc.nchars + 1 < limit ==> r == (sc.(buffer := sc.buffer + [b], nchars := sc.nchars + 1), [])) &&
      (sc.state == ACCEPT && sc.nchars + 1 >= limit ==>
        r.0 == sc.(buffer := [], nchars := limit, newRun := false) &&
        r.1 == (if sc.newRun && tagged then [Tag(sc.offset - |sc.buffer| - 1)] else []) + [Bytes(sc.buffer + [b])])
  {
  }

  /** The bounds that keep extract_strings inside its buffer: a run holds
      fewer than `limit` characters of at most four bytes each until it is
      written, then only the bytes of the character being read; and the
      offset counts the bytes read when it is kept. */
  predicate Fits(sc: Scanner, nbytes: int, limit: nat, tagged: bool, k: nat) {
    IsState(sc.state) && sc.state != REJECT && sc.nchars <= limit &&
    nbytes == |sc.buffer| &&
    nbytes <= (if sc.nchars < limit then 4 * sc.nchars else 0) + PendingBound(sc.state) &&
    nbytes <= k && sc.offset == (if tagged then k else 0)
  }

  /** Storing one more byte of a character keeps the run within Fits. */
  lemma {:induction false} StoreFits(sc: Scanner, b: int, limit: nat, tagged: bool, k: nat)
    requires IsState(sc.state) && sc.state != REJECT && sc.nchars <= limit && |sc.buffer| <= k
    requires sc.offset == (if tagged then k + 1 else 0)
    requires |sc.buffer| + 1 <= (if sc.nchars < limit then 4 * sc.nchars else 0) + (if sc.state == ACCEPT then 4 else PendingBound(sc.state))
    ensures var next := Store(sc, b, limit, tagged).0;
      Fits(next, |next.buffer|, limit, tagged, k + 1)
  {
  }

  /** The end of the loop body (u8strings.c:147-158): computes Store. */
  method StoreByte(buffer: array<int>, state: int, codep: int, nbytes: int, nchars: nat, newRun: bool, offset: nat,
                   b: int, limit: nat, tagged: bool)
    returns (state': int, codep': int, nbytes': int, nchars': nat, newRun': bool, offset': nat, written: seq<Event>)
    requires 0 <= nbytes < buffer.Length
    modifies buffer
    ensures 0 <= nbytes' <= buffer.Length
    ensures (Scanner(state', codep', buffer[..nbytes'], nchars', newRun', offset'), written)
      == Store(Scanner(state, codep, old(buffer[..nbytes]), nchars, newRun, offset), b, limit, tagged)
  {
    ghost var kept := buffer[..nbytes];
    StoreCases(Scanner(state, codep, kept, nchars, newRun, offset), b, limit, tagged);
    state', codep', nchars', newRun', offset' := state, codep, nchars, newRun, offset;
    written := [];
    buffer[nbytes] := b;
    nbytes' := nbytes + 1;
    assert buffer[..nbytes'] == kept + [b];
    if state == ACCEPT {
      nchars' := nchars' + 1;
      if nchars' >= limit {
        if newRun' {
          newRun' := false;
          if tagged {
            written := [Tag(offset' - nbytes')];
          }
        }
        written := written + [Bytes(buffer[..nbytes'])];
        nbytes' := 0;
        nchars' := limit;
      }
    }
  }
}
