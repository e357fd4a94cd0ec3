# u8strings and utf8strings in Dafny

A model of the two streaming extractors of the repository: `u8strings`
(u8strings.c) and its older variant `utf8strings` (utf8strings.c). Each
reads a byte stream and prints the runs of printable, well-formed UTF-8
text that are at least `limit` characters long. When a radix is given,
each run is preceded by the offset of its first byte.

Both decode the input with Bjoern Hoehrmann's table-driven automaton: a
class per byte, a 9-state transition table, and a code-point accumulator.
They differ after a rejected byte. u8strings decodes that byte again from
the start state and ends a printed run with a newline at the end of
input. utf8strings drops the byte and writes no newline at the end of
input.

Modules, one per file:

- `Utf8` (utf8.dfy): the well-formed sequences of section 4 of RFC 3629
  (`IsChar`), the proper prefixes of one (`IsPartial`), `Decode` and
  `Encode`, with the round trips between them. This is the reference the
  automaton is held to.
- `Dfa` (dfa.dfy): the tables of u8strings.c:41-70 (`Utf8dRow`, `Utf8tRow`)
  and the step of u8strings.c:119-124 (`Step`, `Seed`, `Shift`). It proves
  that from ACCEPT a byte sequence returns to ACCEPT exactly when it is one
  well-formed character, whose scalar value is then the accumulator. The C
  bit operations on 32-bit unsigned values are related to the integer
  arithmetic of the model.
- `Printable` (printable.dfy): `is_printable`.
- `Runs` (runs.dfy): what the tools are meant to print, stated over
  characters instead of automaton states. `Expected` is parametrised by the
  variant (`Resync` for u8strings, `Drop` for utf8strings). `Framed` is the
  shape every output has.
- `Scanners` (scanner.dfy): the scanner's variables (`state`, `codep`, the
  buffer `buffer[0..nbytes)`, `nchars`, `new`, `offset`), and the
  buffer-and-flush step both tools share (`Store`, and `StoreByte` on the
  array).
- `U8Strings` (u8strings.dfy) and `Utf8Strings` (utf8strings.dfy):
  `extract_strings` of each tool.
  - Each has a method `ExtractStrings` with the C loop and the `limit * 4`
    array buffer.
  - Its loop body is the method `ReadByte`. It is proved equal to a function
    `Feed`, and the loop is proved equal to `Extract`, which is `Feed`
    folded over the input.
- `U8StringsExpected` and `Utf8StringsExpected` prove that `Extract` is the
  output `Runs.Expected` describes. `Pieces` (pieces.dfy) holds the
  piece-by-piece facts both proofs share.
- `Scenarios` (scenarios.dfy): the two tools on concrete inputs, where they
  agree and where they differ.

The output is a sequence of events:

- `Tag(offset)` is the `printf` of the offset;
- `Bytes(data)` is one `fwrite` of the buffer;
- `Newline` is a `fputc('\n')`.

The input is a sequence of integers in 0..255, and its end is EOF. `tagged`
stands for a non-zero radix.

## Model

| member | source | states |
|---|---|---|
| Utf8.EncodeDecode | u8strings.c:119-124 | every Unicode scalar value encodes to a well-formed sequence that decodes back to it |
| Utf8.DecodeEncode | u8strings.c:119-124 | every well-formed sequence decodes to a scalar value whose encoding is that sequence |
| Utf8.PartialIsProperPrefix | u8strings.c:119-124 | `IsPartial(p)` holds iff `p` is non-empty and a proper prefix of some well-formed sequence |
| Utf8.Extension | u8strings.c:119-124 | a partial sequence is not a character; a sequence that is neither cannot be extended into either |
| Dfa.Utf8dRow | u8strings.c:41-58 | the 16 rows of `utf8d`, as written; Dfa.ByteClassIsTable proves that the class function `ByteClass` reads exactly these entries |
| Dfa.Utf8tRow | u8strings.c:60-70 | the 9 rows of `utf8t`, as written; Dfa.TransitionIsTable proves that `Transition` reads exactly these entries |
| Dfa.ByteClass | u8strings.c:41-58 | every byte class is in 0..11, so `state * 16 + type` stays inside a 16-column row |
| Dfa.ByteClassIs | u8strings.c:41-58 | the class of each byte range: 00-7F 0, 80-8F 1, 90-9F 9, A0-BF 7, C0-C1 and F5-FF 8, C2-DF 2, E0 10, E1-EC and EE-EF 3, ED 4, F0 11, F1-F3 6, F4 5 |
| Dfa.ByteClassIsTable | u8strings.c:41-58 | `ByteClass(b)` is entry `b` of the transcribed `utf8d` rows |
| Dfa.Transition | u8strings.c:60-70 | every entry of the transition table is a state in 0..8 |
| Dfa.TransitionIsTable | u8strings.c:60-70 | `Transition(q, t)` is entry `q * 16 + t` of the transcribed `utf8t` rows |
| Dfa.RejectIsAbsorbing | u8strings.c:62 | REJECT goes to REJECT on every class |
| Dfa.StartRejects | u8strings.c:61 | from ACCEPT, a continuation byte (80-BF) or C0, C1, F5-FF goes straight to REJECT |
| Dfa.Step | u8strings.c:119-124 | one step from a state in 0..8 gives a state in 0..8 |
| Dfa.Seed | u8strings.c:120-122 | the payload of a first byte, `ubyte & (0xFF >> type)`; Dfa.SeedIsBitAnd proves it equals the C expression, and Dfa.StartStep that it is the payload of the character the byte begins |
| Dfa.Shift | u8strings.c:123 | `(ubyte & 0x3F) \| (codep << 6)` reduced modulo 2^32, as in an `unsigned int`; Dfa.ShiftIsBitOr proves it equals the C expression, and Dfa.PendingCodepBound that no bit is lost at any shift the decoder makes |
| Dfa.SeedIsBitAnd | u8strings.c:120-122 | the 32-bit `ubyte & (0xFFU >> type)` equals the model's `Seed` |
| Dfa.ShiftIsBitOr | u8strings.c:123 | the 32-bit `(ubyte & 0x3FU) \| (codep << 6)` equals `codep * 64 + ubyte % 64` when `codep < 2^26` (no bits lost) |
| Dfa.PayloadBound | u8strings.c:119-124 | the payload of a partial sequence, the accumulator of a pending state, is below 2^15 |
| Dfa.PendingCodepBound | u8strings.c:123 | whenever the decoder shifts (a pending state reached from ACCEPT), `codep < 2^16`, so the 32-bit shift by 6 loses no bit and `Shift` is the exact `codep * 64 + ubyte % 64` |
| Dfa.StartStep | u8strings.c:119-124 | from ACCEPT, one byte gives ACCEPT with its value iff it is a one-byte character, the pending state and payload iff it begins one, REJECT otherwise |
| Dfa.ContinueStep | u8strings.c:119-124 | from the state after a partial sequence `p`, byte `b` gives ACCEPT with `Decode(p + [b])`, the pending state of `p + [b]`, or REJECT, exactly as `p + [b]` is a character, partial, or neither |
| Dfa.Decodes | u8strings.c:119-124 | running over a sequence whose prefixes are partial ends in ACCEPT with the decoded value iff it is a character, in a pending state iff partial, in REJECT otherwise |
| Dfa.ReturnsToAccept | u8strings.c:119-124 | from ACCEPT, a sequence returns to ACCEPT first at its end iff it is one well-formed RFC 3629 character, and then `codep` is its scalar value |
| Dfa.RejectPersists | u8strings.c:124 | once REJECT is reached, the rest of the input keeps the automaton in REJECT |
| Dfa.PendingGrows | u8strings.c:145 | each pending state holds at most 3 bytes of a character, and each step to a pending state adds one |
| Printable.IsPrintable | u8strings.c:72-81 | `is_printable`; Printable.PrintableIsNotControl proves it holds exactly of tab and of the code points outside the C0 and C1 controls |
| Printable.PrintableIsNotControl | u8strings.c:72-81 | `is_printable(c)` iff `c` is tab or not a C0/C1 control (00-1F, 7F-9F) |
| Printable.UnprintableIsShort | u8strings.c:72-81 | an unprintable character is one byte, or the two bytes C2 followed by a tail byte 80-9F (U+0080 to U+009F) |
| Runs.PieceFacts | u8strings.c:119-126 | each piece of the input is a printable character, an unprintable one, a partial character cut by a byte that cannot continue it, or a partial character at the end of input |
| Runs.CharPiece | u8strings.c:119-126 | an input that begins with a character begins with that character's piece |
| Runs.PartialPiece | u8strings.c:160-161 | an input that is one partial character is a single truncated piece |
| Runs.Emit | u8strings.c:106-161 | the output from a piece boundary, by pieces: a printable character adds to the run and prints its `Flush`, an unprintable or invalid piece ends the run (newline iff printed), a truncated one prints nothing; U8StringsExpected.OutIsEmit and Utf8StringsExpected.OutIsEmit prove each extractor's `Out` equals it |
| Runs.Expected | u8strings.c:83-161 | the intended output of the whole input, `Emit` from offset 0; Runs.ExpectedIsFramed states its shape, and the two `ExtractIsExpected` lemmas prove the extractors print it |
| Runs.ExpectedIsFramed | u8strings.c:145-161 | every expected output, read against its input from offset 0: each chunk printed is the input's own bytes at its position, and the runs appear in input order without overlap; a run opens with a chunk of exactly `limit` printable characters and each later chunk is the one printable character right after the previous chunk; when tagged, a run has exactly one tag and it is the offset of the run's first byte; a newline ends only a printed run, and under Resync every printed run is ended |
| Runs.ClosedFrom | u8strings.c:145-161 | between runs the shape does not depend on how much of the input was consumed before: an output framed from position `pos` is framed from any earlier position |
| Scanners.Store | u8strings.c:145-158 | the buffer-and-flush step; Scanners.StoreFits bounds the buffer by `limit * 4`, Scanners.StoreByte proves the array code computes it, and the two `TextOut` lemmas that it prints the `Flush` of a printable character |
| Scanners.StoreFits | u8strings.c:94-95 | storing a byte keeps the buffer within `limit * 4` bytes |
| Scanners.StoreByte | u8strings.c:145-158 | writing `buffer[nbytes++]` and flushing on the array computes `Store` |
| U8Strings.Restart | u8strings.c:127-145 | the resynchronisation after a rejected byte; U8Strings.Resync proves the array code computes it, U8Strings.RestartFits bounds what it keeps, and U8StringsExpected.BreakRefused and U8StringsExpected.InvalidOut what it prints |
| U8Strings.Feed | u8strings.c:106-158 | one pass of the loop on one byte; U8Strings.ReadByte proves the array code computes it, U8Strings.FeedFits that it keeps the buffer in bounds, and U8StringsExpected.ExtractIsExpected that folded over the input it prints `Expected` |
| U8Strings.Out | u8strings.c:106-161 | `Feed` folded over the rest of the input, then the end-of-input newline; U8StringsExpected.OutIsEmit proves it equals `Emit` under Resync |
| U8Strings.Extract | u8strings.c:106-161 | the output for the whole input; U8Strings.ExtractStrings proves the loop prints it, U8StringsExpected.ExtractIsExpected that it is `Expected(input, limit, tagged, Resync)` |
| U8Strings.FeedFits | u8strings.c:94-95 | every byte keeps `nbytes` within the `limit * 4` buffer, so `buffer[nbytes++]` is in bounds |
| U8Strings.RestartFits | u8strings.c:136-145 | a restarted run holds at most the one byte just read |
| U8Strings.ReadByte | u8strings.c:118-158 | one pass of the loop body on the array buffer computes `Feed` |
| U8Strings.Resync | u8strings.c:130-145 | the resynchronisation on the array buffer computes `Restart` |
| U8Strings.ExtractStrings | u8strings.c:83-161 | the loop and its end-of-input newline print `Extract(input, limit, tagged)` |
| U8StringsExpected.BreakRefused | u8strings.c:136-143 | the last byte of an unprintable character, and a lone byte that begins none, is dropped again when decoded from ACCEPT |
| U8StringsExpected.TextOut | u8strings.c:145-158 | a printable character adds one character to the run and prints what `Flush` says |
| U8StringsExpected.BreakOut | u8strings.c:125-143 | an unprintable character or a stray byte ends the run, with a newline iff it was printed, and nothing of it is kept |
| U8StringsExpected.InvalidOut | u8strings.c:127-145 | a byte that cuts a partial character ends the run and is read again as the start of the next piece |
| U8StringsExpected.TruncatedOut | u8strings.c:160-161 | a partial character at the end of input prints only the final newline of a printed run |
| U8StringsExpected.OutIsEmit | u8strings.c:106-161 | from any piece boundary, the output is what `Emit` describes under Resync |
| U8StringsExpected.ExtractIsExpected | u8strings.c:83-161 | the output of u8strings is `Expected(input, limit, tagged, Resync)` |
| U8StringsExpected.ExtractIsFramed | u8strings.c:145-161 | the output of u8strings has the shape `Framed` describes, every printed run ended by a newline |
| Utf8Strings.MergedRow | utf8strings.c:37-52 | the 25 rows of the merged `utf8d`, as written; Utf8Strings.ClassRowsAgree and Utf8Strings.TransitionRowsAgree prove them equal to u8strings' two tables |
| Utf8Strings.Utf8d | utf8strings.c:37-52 | entry `i` of the merged table; Utf8Strings.ClassLookup and Utf8Strings.TransitionLookup prove the two lookups of the loop read the class and the transition |
| Utf8Strings.ClassRowsAgree | utf8strings.c:38-46 | entries 0..255 of the merged table are u8strings' byte classes |
| Utf8Strings.TransitionRowsAgree | utf8strings.c:47-51 | entries 256..399 of the merged table are u8strings' transitions |
| Utf8Strings.ClassLookup | utf8strings.c:93 | `utf8d[byte]` is the byte's class |
| Utf8Strings.TransitionLookup | utf8strings.c:97 | `256 + state * 16 + type` is at most 395, inside the 400 entries, and that entry is the transition |
| Utf8Strings.StepByte | utf8strings.c:92-97 | the accumulator and state update through the merged table computes `Step` |
| Utf8Strings.Screen | utf8strings.c:98-105 | the inline check forces state 1 exactly when ACCEPT meets a code point `is_printable` refuses |
| Utf8Strings.Feed | utf8strings.c:81-126 | one pass of the loop on one byte; Utf8Strings.ReadByte proves the array code computes it, Utf8Strings.FeedFits that it keeps the buffer in bounds, and Utf8StringsExpected.ExtractIsExpected that folded over the input it prints `Expected` |
| Utf8Strings.Out | utf8strings.c:81-127 | `Feed` folded over the rest of the input, with nothing at its end; Utf8StringsExpected.OutIsEmit proves it equals `Emit` under Drop |
| Utf8Strings.Extract | utf8strings.c:81-127 | the output for the whole input; Utf8Strings.ExtractStrings proves the loop prints it, Utf8StringsExpected.ExtractIsExpected that it is `Expected(input, limit, tagged, Drop)` |
| Utf8Strings.FeedFits | utf8strings.c:65-66 | every byte keeps `nbytes` within the `limit * 4` buffer |
| Utf8Strings.ReadByte | utf8strings.c:92-126 | one pass of the loop body on the array buffer computes `Feed` |
| Utf8Strings.ExtractStrings | utf8strings.c:54-127 | the loop prints `Extract(input, limit, tagged)`, with no newline at the end of input |
| Utf8StringsExpected.RunDropped | utf8strings.c:106-113 | the last byte of an unprintable character or of an invalid stretch is refused by the automaton |
| Utf8StringsExpected.DropOut | utf8strings.c:106-113 | an unprintable character or invalid stretch ends the run, with a newline iff it was printed, and all its bytes are dropped |
| Utf8StringsExpected.TextOut | utf8strings.c:114-126 | a printable character adds one character to the run and prints what `Flush` says |
| Utf8StringsExpected.TruncatedOut | utf8strings.c:86-91 | a partial character at the end of input prints nothing |
| Utf8StringsExpected.OutIsEmit | utf8strings.c:81-127 | from any piece boundary, the output is what `Emit` describes under Drop |
| Utf8StringsExpected.ExtractIsExpected | utf8strings.c:54-127 | the output of utf8strings is `Expected(input, limit, tagged, Drop)` |
| Utf8StringsExpected.ExtractIsFramed | utf8strings.c:114-127 | the output of utf8strings has the shape `Framed` describes |
| Scenarios.TaggedRunsU8 | u8strings.c:145-161 | "a", NUL, "b" with limit 1 and offsets prints `0 a`, newline, `2 b`, newline |
| Scenarios.TaggedRunsUtf8 | utf8strings.c:114-127 | utf8strings prints the same without the last newline |
| Scenarios.ParenAfterLead | u8strings.c:136-145 | "(" after C3 is read again as a printable character by u8strings, dropped by utf8strings |
| Scenarios.LeadThenParenU8 | u8strings.c:127-145 | C3 28 with limit 1 prints "(" and a newline |
| Scenarios.LeadThenParenUtf8 | utf8strings.c:106-113 | C3 28 with limit 1 prints nothing in utf8strings |
| Scenarios.LoneLead | u8strings.c:160-161 | a lone E2 prints nothing in either tool |
| Scenarios.TwoByteCharacter | u8strings.c:145-158 | C3 A9 (U+00E9) is printed as one character of two bytes |
| Scenarios.ControlRefused | u8strings.c:125-143 | C2 85 (U+0085) is refused; u8strings then resets on the lone 85 |
| Scenarios.ControlCharacter | u8strings.c:125-143 | C2 85 prints nothing in either tool |
| Scenarios.HelloWorldU8 | u8strings.c:145-161 | "Hello", three NULs, "World" with limit 4 and offsets prints `0 Hell`, `o`, newline, `8 Worl`, `d`, newline |
| Scenarios.HelloWorldUtf8 | utf8strings.c:106-127 | utf8strings prints the same without the last newline |
| Scenarios.StrayThenRunU8 | u8strings.c:127-161 | FF then "AAAA" with limit 4 and offsets drops the FF and prints `1 AAAA` and a newline |
| Scenarios.StrayThenRunUtf8 | utf8strings.c:106-127 | utf8strings prints `1 AAAA` without the newline |
| Scenarios.RepeatedTagNotFramed | u8strings.c:145-161 | on "ABCD", NUL, "ABCD" with limit 4 and offsets, an output that tags the second run 0 instead of 5 is not framed |
| Scenarios.ForeignBytesNotFramed | u8strings.c:145-161 | a chunk whose bytes do not occur in the input is not framed |

## Left out

- `main`, option parsing, the validation of `-n`, and the radix selection are not modelled. The validation is kept only as the precondition `limit >= 1`.
- The radix itself is not modelled. An offset tag is kept as a number in a `Tag` event, and `tagged` says whether a radix was given; octal, decimal and hexadecimal formatting are not modelled.
- File input and error handling are not modelled: `fopen`, `fgetc`, `ferror`, `fclose`, a failing `malloc`, `errno` and the `goto error` paths with their messages. The input is a finite sequence, and its end is EOF.
- An `fgetc` that returns EOF with neither the error nor the end-of-file flag set is not modelled. In u8strings.c:111-117 that value would be fed to the automaton as a byte.
- The offset overflow to `EFBIG` is not modelled. Offsets are unbounded naturals and the input is finite. As in the C code, the offset counts bytes only when a radix is given.
- `flush_stdout`, the AFL fork-server hook and the stray debug `printf` in `main` are not modelled; they are command-line plumbing.
- The 32-bit `unsigned int` accumulator is modelled by reducing `Dfa.Shift` modulo 2^32; the `&` and `|` of the C code are written as `%` and `+`. Dfa.SeedIsBitAnd and Dfa.ShiftIsBitOr prove them equal to the bit operations, and Dfa.PendingCodepBound that every shift the decoder makes is on an accumulator below 2^16, so no bit is lost.
- The `while (1)` loop body is split into the methods `ReadByte`, `Resync` (u8strings), `StepByte` and `Screen` (utf8strings). Each `continue` becomes a `return` from the method.
- u8strings.c's table lookups `utf8d[byte]` and `utf8t[state * 16 + type]` are written as `ByteClass` and `Transition` over the byte and class ranges. Dfa.ByteClassIsTable and Dfa.TransitionIsTable prove that these equal the transcribed table rows. utf8strings.c's merged table is transcribed as it stands and read through `Utf8d`.
