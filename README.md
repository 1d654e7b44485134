# A verified model of a JSON decoder and a Brainfuck interpreter

This project models two small Rust crates.

**The JSON decoder** of `json/src/lib.rs`: `Value::from_bytes` reads one JSON
value from a `Peekable` byte iterator by recursive descent. `skip_space`
drops ASCII whitespace; `get_string` handles the escape table and checks
UTF-8; `get_number` reads unsigned decimal integers into an `i64`;
`get_array`/`get_array_content` and `get_object`/`get_object_content` read
containers; `match_lit_str` reads `true`, `false` and `null`. Errors are the
four `ParseError` kinds. Two inputs abort the process instead of returning:
the `todo!()` on a `\u` escape, and an `i64` overflow in `get_number` (a debug
build checks `10 * v + d`).

The decoder is modelled twice:

- **JsonSpec** has one pure function per decoder, from an input and a
  position to an `Outcome` (`Ok` with the value and the position after it,
  `Err`, or `Panicked`).
- **JsonDecoder** has the imperative code: a `Cursor` class (the shared
  iterator, updated in place) and one method per decoder, with the source's
  loops. Each method is proved to compute its JsonSpec function.

Every decoder takes a number scanner, `Scan`:

- `AsWritten` is `get_number` as the source has it.
- `Corrected` leaves out the extra `it.next()` (see "## Findings").

On top of the spec:

- **JsonProperties** proves what each decoder does.
- **JsonEncoding** and **JsonRoundTrip** write documents out in JSON with
  any layout of whitespace between the tokens (ECMA-404 allows it around
  every token) and prove that decoding the text gives back the document's
  meaning.
- **JsonFrame** proves that decoding reads at most one byte past the
  position where the value ends (the byte `next_if` peeks at, or the one the
  extra `it.next()` consumes).
- **JsonExamples** works through the inputs of the test `it_works`.

**The Brainfuck interpreter** of `brainfuck/src/lib.rs`: `BF` holds a program
`text` and a tape `st` of 3000 `u8` cells. `run` interprets the program:

- `><+-.,[]` are the commands; every other byte is skipped.
- `[` on a zero cell jumps forward to just after the next `]`.
- `]` on a non-zero cell jumps back to just after the previous `[`. Both scans
  ignore nesting, as the source does.
- A command that touches a cell past the tape fails with `SegErr`.

Arithmetic follows a debug build, so these abort:

- `+` on 255 and `-` on 0;
- `<` at cell 0;
- a `]` whose backward scan runs past the first byte.

In **Brainfuck**:

- `Step` says what one turn of the main loop does.
- `Exec` says how a run of at most `fuel` turns ends.
- The class `BF` keeps its tape in an `array`, and `BF.Run` is proved to end
  as `Exec` says.

**BrainfuckProperties** proves the effect of each command and how runs
compose. **BrainfuckExamples** runs `+[]` and the program of the test
`echo_back`, `,[.,]`.

Bytes are `int`s from 0 to 255 (`Bytes.Byte`). Standard input and output are
byte sequences. Valid UTF-8 is the predicate of section 4 of RFC 3629
(`Utf8.ValidUtf8`).

Where the code and its design description differ, the model follows the code:

- a `\u` escape aborts the decoder (`todo!()`); it is not a syntax error;
- whitespace is `u8::is_ascii_whitespace`, which includes form feed (0x0C);
- `get_number` drops the byte after each digit it takes with `next_if`;
- an integer overflow aborts, as in a debug build; it is not left undetected.

## Model

| member | source | states |
|---|---|---|
| JsonSpec.SkipSpace | json/src/lib.rs:31-36 | the position reached is at or after the start and holds no whitespace byte |
| JsonSpec.NextToken | json/src/lib.rs:187 | `skip_space(it).next()` returns the byte just before the new position, or `UnexpectedEof` when only whitespace is left |
| JsonSpec.ScanString | json/src/lib.rs:46-70 | a string that is read ends just after a `"` in the input, and its bytes are well-formed UTF-8 |
| JsonSpec.NumberLoop | json/src/lib.rs:78-81 | the number loop never returns a `ParseError`; the value only grows and stays within `i64::MAX` |
| JsonSpec.FromBytes | json/src/lib.rs:175-197 | a decoded value consumes at least one byte and never reads past the input |
| JsonSpec.Dispatch | json/src/lib.rs:187-196 | a value decoded after byte `c` is of the kind `c` announces; a byte that starts no value is `UnexpectSymErr` naming it |
| JsonSpec.GetArray | json/src/lib.rs:157-173 | a decoded array ends after its starting position, within the input |
| JsonSpec.GetArrayContent | json/src/lib.rs:145-155 | a decoded array body ends after its starting position, within the input |
| JsonSpec.ArrayTail | json/src/lib.rs:148-154 | the loop of `get_array_content` ends after its starting position, within the input |
| JsonSpec.GetObject | json/src/lib.rs:121-142 | a decoded object ends after its starting position, within the input |
| JsonSpec.GetObjectContent | json/src/lib.rs:85-119 | a decoded object body ends after its starting position, within the input |
| JsonSpec.Member | json/src/lib.rs:91-97 | a decoded key/value pair ends after its starting position, within the input |
| JsonSpec.ObjectMembers | json/src/lib.rs:90-118 | the outer loop of `get_object_content` ends after its starting position, within the input |
| JsonSpec.MemberEnd | json/src/lib.rs:98-114 | the inner loop of `get_object_content` ends after its starting position, within the input |
| JsonSpec.OccursIsSlice | json/src/lib.rs:181 | comparing the literal with the next bytes pair by pair succeeds exactly when those bytes equal the literal |
| Utf8.AsciiIsValid | json/src/lib.rs:64 | bytes below 0x80 always pass `String::from_utf8` |
| JsonProperties.SkipSpaceOverWhitespace | json/src/lib.rs:31-36 | skipping from anywhere inside a run of whitespace reaches the same byte |
| JsonProperties.SkipSpaceSkips | json/src/lib.rs:31-36 | every byte `skip_space` drops is whitespace |
| JsonProperties.LeadingWhitespace | json/src/lib.rs:187 | whitespace before a value does not change the result, and input that is all whitespace is `UnexpectedEof` |
| JsonProperties.FromBytesRoutes | json/src/lib.rs:187-196 | `skip_space(it).next()` is `UnexpectedEof` exactly when only whitespace is left, and then so is `from_bytes`; a byte that starts no value is `UnexpectSymErr` naming it; a decoded value has the kind its first byte announces |
| JsonProperties.ScanPlainRun | json/src/lib.rs:62-67 | a run of plain bytes is appended to the buffer unchanged |
| JsonProperties.GetStringAfterPlain | json/src/lib.rs:42-71 | after plain bytes: the closing quote returns them if they are UTF-8, else `Utf8Err`; end of input is `UnexpectedEof`; a raw control byte is `UnexpectSymErr`; an unknown escape is `UnexpectSymErr`, and `\u` aborts; for any input, the result is `UnexpectedEof` exactly when the rest is `Unterminated`, and it is never a string when the rest is `Unclosed` |
| JsonProperties.ScanEndOfInput | json/src/lib.rs:46-70 | the string loop returns `UnexpectedEof` if and only if it can read every byte left: each escaped byte is in the escape table, and every other byte is neither a control byte nor an unescaped `"`. Escaped quotes and escaped backslashes count as read. With no unescaped `"` left, the loop never returns a string |
| JsonProperties.ScanUnterminated | json/src/lib.rs:46-70 | for input with no `"` byte at all: never a string; `UnexpectedEof` when no control byte and no unknown escape is left, also when the input ends right after a backslash |
| JsonProperties.EscapeByteInverse | json/src/lib.rs:47-58 | the escape table undoes an encoder's escaping of every byte, and only plain bytes are written bare |
| JsonProperties.ScanEscaped | json/src/lib.rs:46-69 | the escaped text of `t` and a closing quote decode to `t` after the buffer, ending after the quote, or `Utf8Err` when the result is not UTF-8 |
| JsonProperties.GetStringEscaped | json/src/lib.rs:42-71 | a string literal round-trips through `get_string` exactly when its contents are valid UTF-8; otherwise it is `Utf8Err` |
| JsonProperties.LiteralMatch | json/src/lib.rs:179-186 | a literal matches exactly when its remaining bytes follow in order, and then ends after them; any mismatch, including input that ends early, is `DefaultErr` |
| JsonProperties.HornerSnoc | json/src/lib.rs:79 | one more digit multiplies the value so far by ten and adds the digit |
| JsonProperties.NumberLoopIsHorner | json/src/lib.rs:75-83 | `get_number` returns the decimal value of the digits it takes, and aborts exactly when that value exceeds `i64::MAX` |
| JsonProperties.CorrectedTakesRun | json/src/lib.rs:78-81 | the corrected loop takes exactly the run of digits and stops at the first non-digit |
| JsonProperties.HornerDecimal | json/src/lib.rs:77-79 | the decimal writing of `n` is read back as `n` |
| JsonProperties.DecodeDecimal | json/src/lib.rs:75-83 | the corrected `get_number` reads the decimal writing of any `n` up to `i64::MAX` as `n`, ending at its last digit |
| JsonProperties.EmptyArray | json/src/lib.rs:157-173 | `[`, whitespace and `]` is the empty array |
| JsonProperties.ArraySeparators | json/src/lib.rs:148-154 | after an element: the end of the input is `UnexpectedEof`; `]` ends the array; `,]` is an error naming `]`; `,` with only whitespace after it is `UnexpectedEof`; any other byte is an error naming it |
| JsonProperties.GetArraySkipsSpace | json/src/lib.rs:159-172 | the peek loop of `get_array` passes over whitespace: from anywhere in a run of whitespace it gives the same result |
| JsonProperties.ArrayTailExtends | json/src/lib.rs:147-154 | the elements already read stay in front, in order |
| JsonProperties.EmptyObject | json/src/lib.rs:125-142 | `{`, whitespace and `}` is the empty object |
| JsonProperties.GetObjectSkipsSpace | json/src/lib.rs:125-141 | the peek loop of `get_object` passes over whitespace: from anywhere in a run of whitespace it gives the same result |
| JsonProperties.MemberEndSeparators | json/src/lib.rs:98-114 | after a member: the end of the input is `UnexpectedEof`; `}` ends the object just after it; `,` goes back to the outer loop just after it; `,` with only whitespace after it is `UnexpectedEof`; any other byte is an error naming it |
| JsonProperties.MemberErrors | json/src/lib.rs:91-96 | a member that does not start with `"` is an error naming that byte; a key not followed by `:` is `DefaultErr` |
| JsonProperties.FirstKeyWins | json/src/lib.rs:97 | `entry(k).or_insert` keeps the first value of a key; later members never replace it |
| JsonProperties.FirstKeyWinsAtEnd | json/src/lib.rs:97-114 | the same, from inside the loop after a member |
| JsonProperties.DuplicateValueErrors | json/src/lib.rs:97 | `or_insert(Self::from_bytes(it)?)` decodes the value before looking at the map: a member that fails (error or abort) fails the object, whether or not its key is already there |
| JsonProperties.ObjectKeys | json/src/lib.rs:90-118 | a key read for the first time ends up in the object with the value read for it |
| JsonRoundTrip.DecodeLiteral | json/src/lib.rs:191-193 | the text of `null`, `true` or `false` decodes to that value |
| JsonRoundTrip.DecodeNumber | json/src/lib.rs:194 | with the corrected scanner, the decimal text of a number decodes to that number |
| JsonRoundTrip.DecodeString | json/src/lib.rs:190 | an escaped, quoted UTF-8 string decodes to itself |
| JsonRoundTrip.DecodeArray | json/src/lib.rs:157-173 | the text of an array's elements, in any whitespace layout, and `]` decode to the elements' meanings, ending just after `]` |
| JsonRoundTrip.NonEmptyArray | json/src/lib.rs:145-173 | for a non-empty array, the peek loop passes over the whitespace to the first element, which `get_array_content` decodes, and the loop reads the others |
| JsonRoundTrip.FirstItem | json/src/lib.rs:147 | `from_bytes` skips the whitespace before an element's value, which starts with a byte that starts a value, and decodes it to its meaning |
| JsonRoundTrip.DecodeItems | json/src/lib.rs:148-154 | the text of the remaining elements, each after whitespace and `,`, appends their meanings to those read so far and ends just after `]` |
| JsonRoundTrip.DecodeObject | json/src/lib.rs:121-142 | the text of an object's members, in any whitespace layout, and `}` decode to its meaning: the first value of each key |
| JsonRoundTrip.DecodeMembers | json/src/lib.rs:90-118 | the member loop reads the text of the members into the map, keeping first values, and ends just after `}` |
| JsonRoundTrip.MemberStep | json/src/lib.rs:90-114 | one turn of the outer loop adds the first member to the map, then `}` ends the object or `,` leads to the next member |
| JsonRoundTrip.FirstMember | json/src/lib.rs:91-97 | the text of a member, with whitespace around its key, its `:` and its value, is read as its key and the meaning of its value |
| JsonRoundTrip.KeyAt | json/src/lib.rs:91-96 | `skip_space` reaches the key's quote, `get_string` reads the escaped key back, and the `:` after whitespace is the next token |
| JsonRoundTrip.MemberAt | json/src/lib.rs:91-97 | a key, `:` and a value laid out with whitespace between them make one member with the value's meaning |
| JsonRoundTrip.ValueAt | json/src/lib.rs:175-197 | `from_bytes` skips the whitespace before a readable value and decodes it to its meaning, ending just after it |
| JsonRoundTrip.DecodeEncoded | json/src/lib.rs:175-197 | the text of any readable document, in any whitespace layout, followed by a byte that cannot continue it, decodes to its meaning and ends right after the text |
| JsonRoundTrip.RoundTrip | json/src/lib.rs:175-197 | decoding the text of any document, with whitespace before and after it and between its tokens, gives back its meaning (with the scanner as written, for documents without numbers) |
| JsonFrame.SkipSpaceFrame | json/src/lib.rs:31-36 | `skip_space` depends only on the bytes up to where it stops |
| JsonFrame.NextTokenFrame | json/src/lib.rs:187 | the next token depends only on the bytes up to it |
| JsonFrame.ScanStringFrame | json/src/lib.rs:46-70 | a string depends only on the bytes up to its closing quote |
| JsonFrame.NumberLoopFrame | json/src/lib.rs:78-81 | a number depends only on the bytes up to where it stops, plus the next byte |
| JsonFrame.MatchLitStrFrame | json/src/lib.rs:179-186 | a literal depends only on its own bytes |
| JsonFrame.FromBytesFrame | json/src/lib.rs:175-197 | a decoded value depends only on the bytes up to its end, plus the next byte |
| JsonFrame.DispatchFrame | json/src/lib.rs:187-196 | the same for the dispatch on the first byte |
| JsonFrame.GetArrayFrame | json/src/lib.rs:157-173 | the same for `get_array` |
| JsonFrame.GetArrayContentFrame | json/src/lib.rs:145-155 | the same for `get_array_content` |
| JsonFrame.ArrayTailFrame | json/src/lib.rs:148-154 | the same for its loop |
| JsonFrame.GetObjectFrame | json/src/lib.rs:121-142 | the same for `get_object` |
| JsonFrame.MemberFrame | json/src/lib.rs:91-97 | the same for one member |
| JsonFrame.ObjectMembersFrame | json/src/lib.rs:90-118 | the same for the outer member loop |
| JsonFrame.MemberEndFrame | json/src/lib.rs:98-114 | the same for the inner member loop |
| JsonFrame.TrailingBytesIgnored | json/src/lib.rs:175-197 | replacing everything after the byte that follows a decoded value leaves the result unchanged |
| JsonDecoder.Cursor.constructor | json/src/lib.rs:212 | `bytes().peekable()`: the cursor starts at the first byte of the input |
| JsonDecoder.Cursor.Peek | json/src/lib.rs:99 | `peek` gives the next byte without consuming it, `None` at the end |
| JsonDecoder.Cursor.Next | json/src/lib.rs:101 | `next` gives the peeked byte and advances by one, except at the end |
| JsonDecoder.Cursor.NextIfDigit | json/src/lib.rs:78 | `next_if(u8::is_ascii_digit)` consumes the next byte exactly when it is a digit |
| JsonDecoder.NextNonSpace | json/src/lib.rs:187 | `skip_space(it).next()` consumes whitespace and the byte after it, as `NextToken` says |
| JsonDecoder.GetString | json/src/lib.rs:42-71 | the loop returns `JsonSpec.GetString`'s result and leaves the cursor after the closing quote |
| JsonDecoder.GetNumber | json/src/lib.rs:75-83 | the loop returns `JsonSpec.GetNumber`'s result and leaves the cursor where it stops |
| JsonDecoder.MatchLitStr | json/src/lib.rs:179-186 | the comparison succeeds or fails as `JsonSpec.MatchLitStr` does, with the same error |
| JsonDecoder.FromBytes | json/src/lib.rs:175-197 | the recursive decoder returns `JsonSpec.FromBytes`'s result and leaves the cursor after the value |
| JsonDecoder.GetArray | json/src/lib.rs:157-173 | the peek loop returns `JsonSpec.GetArray`'s result |
| JsonDecoder.GetArrayContent | json/src/lib.rs:145-155 | the element loop returns `JsonSpec.GetArrayContent`'s result |
| JsonDecoder.GetObject | json/src/lib.rs:121-142 | the peek loop returns `JsonSpec.GetObject`'s result |
| JsonDecoder.Member | json/src/lib.rs:91-97 | one key/value pair, as `JsonSpec.Member` says |
| JsonDecoder.GetObjectContent | json/src/lib.rs:85-119 | the labelled loops return `JsonSpec.GetObjectContent`'s result |
| JsonDecoder.DecodeBytes | json/src/lib.rs:211-213 | decoding an in-memory input from its first byte gives `JsonSpec.Decode` |
| JsonExamples.EmptyString | json/src/lib.rs:224 | `""` decodes to the empty string |
| JsonExamples.PlainString | json/src/lib.rs:225 | `"a string"` decodes to `a string` |
| JsonExamples.EscapedNewline | json/src/lib.rs:226 | `"a \nstring"` decodes with a real newline |
| JsonExamples.SpacedLiterals | json/src/lib.rs:227-228 | ` true` and ` false` decode to the booleans |
| JsonExamples.BigNumberAsWritten | json/src/lib.rs:229 | as written, `3244443214` decodes to 324424, not to the number the test expects |
| JsonExamples.BigNumberCorrected | json/src/lib.rs:229 | with the corrected scanner, `3244443214` decodes to 3244443214 |
| JsonExamples.TrailingComma | json/src/lib.rs:231 | `[12 , 34 , 45 ,]` is an error naming `]` |
| JsonExamples.MissingCommaAsWritten | json/src/lib.rs:233 | as written, `[12 , 34 45 ]` decodes to `[12, 344]`, though the test expects an error |
| JsonExamples.MissingCommaCorrected | json/src/lib.rs:233 | with the corrected scanner, `[12 , 34 45 ]` is an error naming the `4` where a separator belongs |
| JsonExamples.MismatchedClose | json/src/lib.rs:234 | `[}` is an error naming `}` |
| JsonExamples.EmptyContainers | json/src/lib.rs:237-238 | `[]` and `{}` decode to the empty array and object |
| JsonExamples.NestedAsWritten | json/src/lib.rs:240 | as written, `{"a":[12, 34 , 45]}` is an error naming `3`, though the test expects success |
| JsonExamples.NestedCorrected | json/src/lib.rs:240 | with the corrected scanner, it decodes to `{"a": [12, 34, 45]}` |
| JsonExamples.RawTab | json/src/lib.rs:242 | the test input `"abcded` tab `fdsa"`: a raw tab inside a string is an error naming it |
| JsonExamples.CutOffStrings | json/src/lib.rs:46-70 | `"a\"b` and `"a\\x`, cut off after an escaped quote or an escaped backslash, are `UnexpectedEof` |
| JsonExamples.UnicodeEscapePanics | json/src/lib.rs:57 | a `\u` escape aborts the decoder |
| JsonExamples.ShortLiteral | json/src/lib.rs:181-182 | `tru` is `DefaultErr` |
| JsonExamples.NegativeNumber | json/src/lib.rs:195 | `-1` is an error naming `-` |
| JsonExamples.DuplicateKey | json/src/lib.rs:97 | `{"a":1,"a":2}` keeps the first value |
| JsonExamples.DuplicateKeyBadValue | json/src/lib.rs:97 | `{"a":1,"a":x}` is an error naming `x`: the duplicate's value is still decoded |
| JsonExamples.OpenArray | json/src/lib.rs:149 | `[1,2` is `UnexpectedEof`: the input ends where `]` or `,` belongs |
| JsonExamples.OpenObject | json/src/lib.rs:99 | `{"a":1` is `UnexpectedEof`: the input ends where `,` or `}` belongs |
| JsonExamples.ClosedNumberAsWritten | json/src/lib.rs:78-80 | as written, `[12]` is `UnexpectedEof`: the `]` is consumed with the `2` |
| JsonExamples.SpacedNumberAsWritten | json/src/lib.rs:78-80 | as written, `[12 ]` decodes to `[12]`: the space is consumed with the `2` |
| JsonExamples.ClosedNumberCorrected | json/src/lib.rs:78-80 | with the corrected scanner, `[12]` decodes to `[12]` |
| JsonExamples.TwoDigitNumber | json/src/lib.rs:75-83 | two digits decode to their value; as written, the byte after them is consumed too |
| Brainfuck.FindClose | brainfuck/src/lib.rs:38-41 | the forward scan stops at the first `]` at or after `ip`, or at the end of the program |
| Brainfuck.FindOpen | brainfuck/src/lib.rs:46-49 | the backward scan stops at the last `[` at or before `ip`, or finds none |
| Brainfuck.Step | brainfuck/src/lib.rs:33-72 | a turn keeps the tape at 3000 cells, and a turn that stops the run never stops it with `Ok` |
| Brainfuck.Exec | brainfuck/src/lib.rs:29-75 | a run keeps the tape at 3000 cells |
| Brainfuck.BF.FromSliceU8 | brainfuck/src/lib.rs:24-27 | a fresh interpreter holds the given program and a tape of 3000 zero cells |
| Brainfuck.BF.SkipForward | brainfuck/src/lib.rs:38-41 | the inner loop of `[` computes `FindClose` |
| Brainfuck.BF.SkipBack | brainfuck/src/lib.rs:46-49 | the inner loop of `]` computes `FindOpen` |
| Brainfuck.BF.Run | brainfuck/src/lib.rs:29-75 | `run` ends as `Exec` says: the same status, output and final tape |
| Brainfuck.Interpret | brainfuck/src/lib.rs:88-89 | building an interpreter with `from_slice_u8` and running it is `Exec` from an all-zero tape |
| BrainfuckProperties.NonCommandSkips | brainfuck/src/lib.rs:33-34 | a byte that is not a command only moves `ip` on |
| BrainfuckProperties.CellCommands | brainfuck/src/lib.rs:54-55 | `+` and `-` change the current cell by one and nothing else, or abort on 255 and 0 |
| BrainfuckProperties.PointerCommands | brainfuck/src/lib.rs:52-53 | `<` and `>` move `tp` by one and leave the tape alone; `<` at 0 aborts |
| BrainfuckProperties.InputOutput | brainfuck/src/lib.rs:56-67 | `.` appends the current cell to the output; `,` moves the next input byte into it, or leaves it alone at the end of the input |
| BrainfuckProperties.SegErrBounds | brainfuck/src/lib.rs:37-64 | a turn fails with `SegErr` exactly when it touches a cell past the tape (both directions) |
| BrainfuckProperties.OpenSkipsForward | brainfuck/src/lib.rs:36-43 | `[` on a zero cell goes on after the first `]` at or after it |
| BrainfuckProperties.OpenWithoutClose | brainfuck/src/lib.rs:36-43 | `[` on a zero cell with no `]` after it ends the run with `Ok` |
| BrainfuckProperties.CloseSkipsBack | brainfuck/src/lib.rs:44-51 | `]` on a non-zero cell goes on after the nearest `[` at or before it |
| BrainfuckProperties.CloseWithoutOpen | brainfuck/src/lib.rs:44-51 | `]` on a non-zero cell with no `[` before it aborts |
| BrainfuckProperties.ExecStep | brainfuck/src/lib.rs:33-72 | a turn that goes on costs one unit of fuel |
| BrainfuckProperties.OkIffPastEnd | brainfuck/src/lib.rs:33-74 | a run ends `Ok` exactly when `ip` has passed the end of the program |
| BrainfuckProperties.MoreFuel | brainfuck/src/lib.rs:33-72 | a run that ended ends the same way with more fuel |
| BrainfuckProperties.ExecSplit | brainfuck/src/lib.rs:33-72 | a run of `n + m` turns is a run of `n` turns followed by one of `m` |
| BrainfuckProperties.StepGrows | brainfuck/src/lib.rs:56-67 | one turn only appends to the output and only consumes input from the front |
| BrainfuckProperties.OutputGrows | brainfuck/src/lib.rs:56-67 | the same holds for a whole run |
| BrainfuckExamples.PlusLoopNeverEnds | brainfuck/src/lib.rs:44-51 | `+[]` never ends, however much fuel it is given |
| BrainfuckExamples.EchoScans | brainfuck/src/lib.rs:94 | the `[` and `]` of `,[.,]` find each other |
| BrainfuckExamples.EchoEmptyInput | brainfuck/src/lib.rs:93-97 | `,[.,]` on empty input ends `Ok` at once and writes nothing |
| BrainfuckExamples.EchoLoop | brainfuck/src/lib.rs:93-97 | from inside its loop, `,[.,]` copies the rest of the input up to a zero byte, then ends `Ok` |
| BrainfuckExamples.EchoBack | brainfuck/src/lib.rs:93-97 | `,[.,]` copies an input without zero bytes to the output when a zero byte ends it |
| BrainfuckExamples.EchoRepeats | brainfuck/src/lib.rs:60-67 | at the end of the input, `,[.,]` never ends, and every three turns it writes the last non-zero byte once more and is back at its `.` |
| BrainfuckExamples.EchoAtEndOfInput | brainfuck/src/lib.rs:93-97 | `,[.,]` on one non-zero byte never ends, and after `2 + 3k` turns it has written that byte `k` times |

The lemmas of JsonRoundTrip not in the table each unfold one branch of a
decoder: FromBytesAt, the Dispatch lemmas, GetArrayFirst, ArrayTailClose,
ArrayTailNext, GetObjectFirst, MemberChain, MembersNext, TokenAfter,
DelimitedBefore, EndOfValue, AfterMember, SeparatorStep and MoreMembers. Others locate
the pieces of the text: ItemsSeparator, MemberSeparator and ObjectStart, and
the layout lemmas of JsonEncoding. All of them are proof steps of
DecodeEncoded.

## Left out

- `Value::from_reader` (json/src/lib.rs:199-203) and `BF::from_reader` (brainfuck/src/lib.rs:15-22): they read an `io::Read`. The model decodes and runs in-memory bytes, as `from_bytes` and `from_slice_u8` do.
- `impl Display for Value` (json/src/lib.rs:247-282): diagnostic output only, which the source itself marks as buggy.
- The async-tokio crate: it is not part of this model.
- Real standard input and output: `,` and `.` work on byte sequences, so `BFErr::IOErr` never happens. `std::io::stdin().read` is modelled as filling the cell with the next input byte, or leaving it alone at the end of the input.
- Release-build wrap-around: the cells and `tp` follow debug-build overflow checks. `+`/`-`/`<` and the `ip -= 1` of `]` abort the run instead of wrapping.
- Brainfuck.BF.Run: `tp` is an unbounded `nat`, not a `usize`. `>` can always move on, where the source would overflow after 2^64 moves.
- Brainfuck.BF.Run: a run is bounded by `fuel` turns of the main loop, because a Brainfuck program need not halt. A `None` status means the fuel ran out.
- The `hello_world` test (brainfuck/src/lib.rs:83-90) and the long documents of `it_works` (json/src/lib.rs:243-245): too long to evaluate step by step in a proof, and not worked through. The two documents of lines 243-245 hold no numbers, only strings, `true`, objects and arrays with single spaces between the tokens, so they are texts of documents JsonRoundTrip.RoundTrip covers under both scanners; those two documents are not written out as Dafny values.
- The inputs `[12 ,	 34 , 45 ]`, `[{]`, `[1 , 2 , 3 , {]`, `[{"a": 12]}` and `{"a":[12 , 34 , 45], "b": 32,}` of `it_works` (json/src/lib.rs:232-241) are not worked through as examples. Each step they take is one that JsonProperties.ArraySeparators, JsonProperties.MemberEndSeparators, JsonProperties.MemberErrors or JsonProperties.NumberLoopIsHorner states, but the chain of steps for these inputs is not derived.
- Error positions: where an error leaves the caller's iterator (`from_bytes` advances the caller's own `Peekable`) is not modelled. The spec functions keep a position only on success.
- JsonSpec.FromBytes: nesting depth is not bounded. `from_bytes`, `get_array` and `get_object` recurse with no limit, so a deeply nested input (say a million `[`) overflows the Rust stack and aborts the process. The model has no stack; on that input it returns `Err(UnexpectedEof)`.
- JsonSpec.NumberLoop: `v` is an unbounded `nat` checked against `i64::MAX`. The overflow of a debug build is the `NumberOverflow` abort; the release-build wrap-around is not modelled.
- JsonSpec.ScanString: `todo!()` on `\u` is the `UnicodeEscape` abort, not a message.
- JsonRoundTrip.RoundTrip: with the scanner as written it only covers documents without numbers, because that scanner mangles numbers (see "## Findings").

## Findings

| source | as written | input that shows it | evidently intended | confidence | as-written member | corrected member |
|---|---|---|---|---|---|---|
| json/src/lib.rs:78-80 | `get_number` calls `it.next()` after every digit `next_if` takes, so the byte after each digit is dropped | `3244443214` decodes to 324424; `{"a":[12, 34 , 45]}` fails with `UnexpectSymErr(b'3')` because the `,` after `12` is swallowed; `[12 , 34 45 ]` decodes to `[12, 344]`; `[12]` is `UnexpectedEof` because the `]` is swallowed, while `[12 ]` decodes to `[12]` | take the run of consecutive digits and leave the next byte for the caller, as the tests at lines 229, 233 and 240 expect | not executed | JsonExamples.BigNumberAsWritten | JsonProperties.DecodeDecimal |
