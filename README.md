# menv_proc_macro: string-literal decoder and declaration macros, in Dafny

This project models the procedural-macro crate `menv_proc_macro` of `menv`. It covers two parts.

- **The literal decoder** (`lit_parse.rs`, module `LitParse`). `Literal::parse` classifies the text of a
  literal token by its first character. It sends plain strings to `parse_str_literal`. That function is a
  two-state (`Normal` / `InEscape`) scanner for the escapes `\" \' \x \n \r \t \\ \0 \u{…}` and for
  backslash-newline continuation; it collects invalid-escape and suffix diagnostics without stopping. It
  sends raw strings to `parse_raw_str_literal`, which counts the opening `#` run, then copies text verbatim
  up to the first quote followed by as many `#`.
- **The declaration macros** (`lib.rs`, module `ProcMacro`). `Stream::parse` splits a token sequence on `;`
  punctuation. `call_require_envs` wraps one declaration into a `krate::require_envs! { @method … }`
  call. `assert_var_body!`, `getters!`, `any_set_body!` and `help_body!` assemble those calls. `errors!`
  expands the (always empty) error list. `trimmed_help!` turns one help-text literal into a trimmed string
  literal or a compile error.

Each loop of the source is a `method` proved against a specification function: `ParseStrLiteral` against
`StrLiteral`/`ScanFrom`, `ParseRawStrLiteral` against `RawStrLiteral`/`RawBody`, `ParseStream` against
`Declarations`, `TrimmedHelp` against `TrimmedHelpOf`. The properties are lemmas about those
functions, in modules `LitParseProperties` and `ProcMacroProperties`.

Every `unwrap`, `unreachable!` and `assert!` of the decoder that malformed lexer output could reach is an
explicit outcome `Panics` of `Outcome<T>`. So the decoder functions are total, and each abort site is
visible in their definitions. The `assert!(input.starts_with(…))` checks at the entry of the two parsers
are `requires`, because `Literal::parse` establishes them. The Rust `Result` is `Result<T>`; the model,
like the code, never builds an `Err`.

Modelling choices that follow the code:

- `\'` appends a double quote, as lit_parse.rs:101-104 does.
- After an unrecognised escape the state stays `InEscape`, so the next character is read as an escape.
  The body `\q"` therefore yields the text `"` and one diagnostic at byte offset 1.
- The first `\x` digit is only `c as u8 - b'0'`. With overflow checks, digits below `'0'` panic and values
  from 16 panic at the `* 16`. The digits `'8'`..`'9'` and the non-digits `':'`..`'?'` are accepted.
- `c as u8` is the low byte of the code point (`AsU8`), so a non-ASCII character whose low byte is a hex
  digit or `}` is read as one, as in the code.
- The invalid-escape offset is a byte offset into the body (`ByteOffset`, the sum of the UTF-8 lengths of the characters before it), because
  it comes from `char_indices`.
- `\u{}` with no digits yields NUL. A seventh position that is not `}` panics.
- A quote in a raw string followed by fewer hashes than the opener, and then by the end of the input,
  ends the string without emitting that quote (lit_parse.rs:260).

## Model

| member | source | states |
|---|---|---|
| LitParse.ByteOffset | menv_proc_macro/src/lit_parse.rs:85-86 | the byte index that `char_indices` pairs with the k-th character: the sum of the UTF-8 lengths of the characters before it; bounds and growth in `ByteOffsetBounds` and `ByteOffsetMonotone` |
| LitParse.Diagnostic.Message | menv_proc_macro/src/lit_parse.rs:199-215 | the text of each collected error: the invalid-escape message with its byte offset, the suffix message, and the non-string help-text message of lib.rs:173; `InvalidEscapeMessage` reads the offset back |
| LitParse.SimpleEscape | menv_proc_macro/src/lit_parse.rs:97-141 | the character appended for each of `\" \' \n \r \t \\ \0` (both quote escapes append `"`), and no other escape; used by `SimpleEscapeStep` |
| LitParse.Decimal | menv_proc_macro/src/lit_parse.rs:202 | the `{i}` rendering is a non-empty run of decimal digits; `DecimalRoundTrip` reads it back |
| LitParse.HexDigitValue | menv_proc_macro/src/lit_parse.rs:113-117 | a recognised hexadecimal digit byte has a value below 16 |
| LitParse.FromU32 | menv_proc_macro/src/lit_parse.rs:172 | `char::from_u32` succeeds exactly on Unicode scalar values and keeps the code |
| LitParse.AsciiEscape | menv_proc_macro/src/lit_parse.rs:110-119 | a `\x` escape that does not panic yields a character below 256 |
| LitParse.UnicodeDigits | menv_proc_macro/src/lit_parse.rs:149-168 | the digit loop, when it does not panic, resumes strictly after its start and inside the body; `UnicodeDigitsEndsAtBrace` adds that it stops just after a `}` |
| LitParseProperties.UnicodeDigitsEndsAtBrace | menv_proc_macro/src/lit_parse.rs:155-168 | the digit loop, when it does not panic, stops just after a character whose low byte is `}` (the code reads `maybe_digit as u8`), so any character with low byte 0x7D also closes the escape |
| LitParse.UnicodeEscape | menv_proc_macro/src/lit_parse.rs:143-175 | a `\u{…}` escape that does not panic resumes strictly after its `{`, inside the body |
| LitParse.SkipWhitespace | menv_proc_macro/src/lit_parse.rs:188-196 | the continuation skip is the maximal run of HT, LF, CR and SPACE |
| LitParse.SkipStringContinue | menv_proc_macro/src/lit_parse.rs:188-196 | the peek loop stops at the end of that run, and panics when the run reaches the end of the input |
| LitParse.ParseUnicodeEscape | menv_proc_macro/src/lit_parse.rs:143-175 | the `for n in 0..7` loop computes `UnicodeEscape`, panics included |
| LitParse.ScanStep | menv_proc_macro/src/lit_parse.rs:86-215 | one turn of the `while let` loop that does not stop moves strictly forward and stays inside the body |
| LitParse.StepAdvance | menv_proc_macro/src/lit_parse.rs:86-215 | a turn that does not stop appends its own text and diagnostics to what came before, and scanning goes on from its next index and state |
| LitParse.ScanFrom | menv_proc_macro/src/lit_parse.rs:86-215 | the `while let` loop from index k in a given state: the text and diagnostics of every turn in order, the suffix check after the closing quote, and `Panics` for every `unwrap`/`unreachable!`; its properties are the `…Step`, `…Scan` and round-trip lemmas |
| LitParse.StrLiteral | menv_proc_macro/src/lit_parse.rs:75-217 | `parse_str_literal`: drops the opening quote and scans the rest from `Normal`; never `Err`; decodes escaped strings back (`EscapeRoundTrip`, `UnicodeEscapeRoundTrip`) |
| LitParse.ParseStrLiteral | menv_proc_macro/src/lit_parse.rs:75-217 | the scanner loop yields exactly the text, diagnostics and panics of `StrLiteral` |
| LitParse.HashRun | menv_proc_macro/src/lit_parse.rs:225-237 | the `#` run at an index is maximal and made only of `#` |
| LitParse.Hashes | menv_proc_macro/src/lit_parse.rs:254-256 | `n` hashes |
| LitParse.AttemptTermination | menv_proc_macro/src/lit_parse.rs:243-262 | the `'attempt_termination` loop counts the hashes after a quote, up to the opener's count |
| LitParse.RawBody | menv_proc_macro/src/lit_parse.rs:239-274 | the `'string_body` loop from index p with N opening hashes: verbatim copy, a quote with fewer than N hashes copied with them, end at a quote with N hashes or at the end of input after a quote, panics at the `[]` and last-character `unwrap`; `RawBodyVerbatim` states what it copies |
| LitParse.RawStrLiteral | menv_proc_macro/src/lit_parse.rs:219-276 | `parse_raw_str_literal`: counts the opening hashes, requires the quote (else `unreachable!`) and runs the body loop; `RawLiteralContent` and `RawRoundTrip` state its result |
| LitParse.ParseRawStrLiteral | menv_proc_macro/src/lit_parse.rs:219-276 | the prefix and body loops yield exactly the text and panics of `RawStrLiteral` |
| LitParse.StringBody | menv_proc_macro/src/lit_parse.rs:239-274 | the `'string_body` loop, from any index and for any hash count, yields exactly `RawBody`, panics included |
| LitParse.Classified | menv_proc_macro/src/lit_parse.rs:27-49 | `Literal::parse` on the token text: `"` to the plain decoder with its diagnostics, `r` to the raw decoder with none, anything else `Unknown`; `ClassifierDispatch` states the cases |
| LitParse.ParseLiteral | menv_proc_macro/src/lit_parse.rs:27-49 | the classifier yields `Classified`: plain decoder for `"`, raw decoder for `r`, `Unknown` otherwise |
| LitParseProperties.DecimalRoundTrip | menv_proc_macro/src/lit_parse.rs:202 | the decimal digits of an offset read back as that offset |
| LitParseProperties.ByteOffsetBounds | menv_proc_macro/src/lit_parse.rs:85 | the byte offset of the k-th character lies between k and 4k, and is exactly k when every character before it is ASCII |
| LitParseProperties.ByteOffsetMonotone | menv_proc_macro/src/lit_parse.rs:85 | byte offsets grow by at least one byte per character |
| LitParseProperties.InvalidEscapeMessage | menv_proc_macro/src/lit_parse.rs:201-204 | the diagnostic text is the fixed prefix followed by the offset in decimal |
| LitParseProperties.PlainScan | menv_proc_macro/src/lit_parse.rs:86-93 | from any index, text without backslash, CR or quote is copied up to the stopping quote |
| LitParseProperties.NoEscapeLiteral | menv_proc_macro/src/lit_parse.rs:86-93 | a body with no backslash or CR before its first quote decodes to the prefix before that quote. One suffix diagnostic follows exactly when text follows that quote, and none when the input runs out |
| LitParseProperties.BareCarriageReturnPanics | menv_proc_macro/src/lit_parse.rs:91 | a CR outside an escape, before any backslash or quote, is the `unreachable!` panic |
| LitParseProperties.CarriageReturnScan | menv_proc_macro/src/lit_parse.rs:86-93 | from any index, a CR reached before any backslash or quote is the `unreachable!` panic |
| LitParseProperties.EscapeStart | menv_proc_macro/src/lit_parse.rs:89 | a backslash appends nothing and moves the scanner to `InEscape` |
| LitParseProperties.ClosingQuote | menv_proc_macro/src/lit_parse.rs:90-216 | an unescaped quote breaks out of the loop and ends the scan with no text, adding the suffix diagnostic exactly when anything follows it |
| LitParseProperties.SimpleEscapeStep | menv_proc_macro/src/lit_parse.rs:97-141 | `\n \r \t \\ \0` append LF, CR, HT, backslash, NUL; `\"` and `\'` append `"`; each consumes two characters and returns to `Normal` |
| LitParseProperties.HexEscapeStep | menv_proc_macro/src/lit_parse.rs:106-121 | `\xHL` with H in `0`..`7` appends the character `(H-'0')*16 + hexval(L)`, below 128, and resumes in `Normal` after L |
| LitParseProperties.AsciiEscapeValue | menv_proc_macro/src/lit_parse.rs:110-119 | `\x` with a first digit in `0`..`7` and a hex second digit does not panic and yields `(H-'0')*16 + hexval(L)`, below 128 |
| LitParseProperties.HornerIsHexNumber | menv_proc_macro/src/lit_parse.rs:155-164 | the shift-and-add loop computes the most-significant-first base-16 value |
| LitParseProperties.UnicodeDigitsRead | menv_proc_macro/src/lit_parse.rs:149-168 | up to six hex digits of either case and a `}` are read to their accumulated value and the index after the brace |
| LitParseProperties.UnicodeDigitsReadValue | menv_proc_macro/src/lit_parse.rs:149-168 | up to six hex digits followed by `}` are read to their base-16 value and the index after the brace |
| LitParseProperties.UnicodeEscapeValue | menv_proc_macro/src/lit_parse.rs:146-172 | `{` followed by digits the loop reads to a scalar value yields that character and the index after `}` |
| LitParseProperties.UnicodeEscapeValueStep | menv_proc_macro/src/lit_parse.rs:143-175 | a `\u{…}` that the loop reads to a scalar value appends that character and resumes in `Normal` after the brace |
| LitParseProperties.UnicodeEscapeStep | menv_proc_macro/src/lit_parse.rs:143-175 | `\u{D1..Dk}` with 0 ≤ k ≤ 6 appends the character of the digits' base-16 value and resumes in `Normal` after the brace |
| LitParseProperties.EmptyUnicodeEscapeIsNul | menv_proc_macro/src/lit_parse.rs:149-173 | `\u{}` appends NUL |
| LitParseProperties.ContinuationStep | menv_proc_macro/src/lit_parse.rs:177-198 | backslash-LF appends nothing and skips the maximal whitespace run. Scanning resumes in `Normal` at the first other character, and running out of input panics |
| LitParseProperties.InvalidEscapeStep | menv_proc_macro/src/lit_parse.rs:199-205 | any other escape character adds one invalid-escape diagnostic at its byte offset, appends nothing and stays `InEscape` |
| LitParseProperties.ScanShape | menv_proc_macro/src/lit_parse.rs:86-215 | a scan yields at most one character per body character. Each diagnostic carries the literal's span and is either an invalid escape at a byte offset inside the body or a single last suffix diagnostic |
| LitParseProperties.StepShape | menv_proc_macro/src/lit_parse.rs:86-208 | one turn appends at most one character per character consumed, and reports at most one diagnostic: an invalid escape at the current byte offset, or the suffix diagnostic when it stops |
| LitParseProperties.EscapeCharStep | menv_proc_macro/src/lit_parse.rs:88-141 | the escaped form of any character (itself, or `\" \\ \r \n \t \0`) decodes to that character alone |
| LitParseProperties.UnicodeCharStep | menv_proc_macro/src/lit_parse.rs:143-175 | a `\u{` whose digit loop reads the code of character `c` appends exactly `c` and scanning resumes where the loop stopped |
| LitParseProperties.UnicodeEscapeOfHead | menv_proc_macro/src/lit_parse.rs:143-168 | the `\u{hex}` form of a character starts with `\u{` and the digit loop reads it back to the character's code, ending after its `}` |
| LitParseProperties.UnicodeEscapeOfSteps | menv_proc_macro/src/lit_parse.rs:143-175 | wherever the `\u{hex}` form of a character stands, the scan appends that character alone and continues after it |
| LitParseProperties.UnicodeDigitsOfChar | menv_proc_macro/src/lit_parse.rs:149-168 | the digit loop reads the hex digits of a character's `\u{…}` form back to its code |
| LitParseProperties.EncodedRun | menv_proc_macro/src/lit_parse.rs:86-208 | a scanner that decodes every encoded character on its own decodes the concatenated encoding of a string to that string |
| LitParseProperties.EscapedScan | menv_proc_macro/src/lit_parse.rs:86-141 | scanning the escaped form of a string appends exactly that string and reports nothing |
| LitParseProperties.UnicodeEscapedScan | menv_proc_macro/src/lit_parse.rs:143-175 | scanning the `\u{hex}` form of a string appends exactly that string and reports nothing |
| LitParseProperties.ScanToLiteral | menv_proc_macro/src/lit_parse.rs:81-86 | a scan of the text after the opening quote that appends a string and stops is the literal's decoding |
| LitParseProperties.EscapeRoundTrip | menv_proc_macro/src/lit_parse.rs:75-217 | a string escaped with `\" \\ \r \n \t \0` decodes back to itself with no diagnostics; any suffix adds exactly the suffix diagnostic |
| LitParseProperties.UnicodeEscapeRoundTrip | menv_proc_macro/src/lit_parse.rs:143-175 | a string written entirely as `\u{hex}` escapes decodes back to itself with no diagnostics |
| LitParseProperties.ScalarHexDigits | menv_proc_macro/src/lit_parse.rs:145 | every scalar value has at most six hexadecimal digits |
| LitParseProperties.RawShortRunStep | menv_proc_macro/src/lit_parse.rs:248-259 | a quote followed by k < N hashes and another character emits the quote and the k hashes and resumes after them |
| LitParseProperties.HashRunAtLeast | menv_proc_macro/src/lit_parse.rs:243-251 | the `'attempt_termination` loop reaches N hashes after a quote exactly when N hashes follow it |
| LitParseProperties.RawClosingStep | menv_proc_macro/src/lit_parse.rs:241-247 | a quote followed by N hashes closes the body with nothing more appended |
| LitParseProperties.RawPlainStep | menv_proc_macro/src/lit_parse.rs:264-271 | a character other than a quote, with more input after it, is copied and the loop goes on from the next character |
| LitParseProperties.RawOpening | menv_proc_macro/src/lit_parse.rs:219-238 | `r`, N hashes and a quote hand the rest to the body loop with a delimiter of N hashes |
| LitParseProperties.RawContentOf | menv_proc_macro/src/lit_parse.rs:219-276 | N hashes, a quote, content with no quote followed by N hashes, a quote and N hashes decode to the content |
| LitParseProperties.RawBodyVerbatim | menv_proc_macro/src/lit_parse.rs:239-274 | the body loop copies verbatim up to the first quote followed by N hashes |
| LitParseProperties.RawLiteralContent | menv_proc_macro/src/lit_parse.rs:219-276 | a raw string opened by N hashes decodes to exactly the text between the opening quote and the first quote followed by N hashes |
| LitParseProperties.RawRoundTrip | menv_proc_macro/src/lit_parse.rs:219-276 | `r`, N hashes, quote, content, quote, N hashes decodes to the content when no quote inside it is followed by N hashes |
| LitParseProperties.ClassifierDispatch | menv_proc_macro/src/lit_parse.rs:27-49 | never `Err`. `Unknown` with no diagnostics exactly when the text starts with neither `"` nor `r`. A quote goes to the plain decoder with its diagnostics, `r` to the raw decoder with none |
| LitParseProperties.ClassifiedKeepsSpan | menv_proc_macro/src/lit_parse.rs:27-49 | a decoded literal carries the span of its token |
| LitParseProperties.HexExample | menv_proc_macro/src/lit_parse.rs:106-121 | `"\x41"` decodes to `A` |
| LitParseProperties.UnicodeExample | menv_proc_macro/src/lit_parse.rs:143-175 | `"\u{48}\u{49}"` decodes to `HI` |
| LitParseProperties.InvalidEscapeExample | menv_proc_macro/src/lit_parse.rs:199-205 | `"\q"` decodes to `"` with one diagnostic at byte offset 1 |
| LitParseProperties.ContinuationExample | menv_proc_macro/src/lit_parse.rs:177-198 | `a`, backslash, LF, three spaces, `b` decodes to `ab` |
| LitParseProperties.SuffixExample | menv_proc_macro/src/lit_parse.rs:209-215 | `"abc"xyz` decodes to `abc` with the suffix diagnostic |
| LitParseProperties.RawExample | menv_proc_macro/src/lit_parse.rs:239-274 | `r#"a"b"#` decodes to `a"b` |
| LitParseProperties.RawWithoutHashesExample | menv_proc_macro/src/lit_parse.rs:224-237 | `r"plain"` decodes to `plain` |
| ProcMacro.ParseStream | menv_proc_macro/src/lib.rs:31-60 | the loop yields the crate identifier, the `;`-separated declarations without an empty last one, and no errors |
| ProcMacro.CallRequireEnvs | menv_proc_macro/src/lib.rs:63-78 | a call is six trees starting with the crate; `CallRoundTrip` reads back its method and tokens |
| ProcMacro.CallsLayout | menv_proc_macro/src/lib.rs:84-88 | the concatenated calls take six trees per declaration, the i-th six being declaration i's call |
| ProcMacro.CallsWithCommasLayout | menv_proc_macro/src/lib.rs:94-99 | with commas, seven trees per declaration: its call, then `,` |
| ProcMacro.AssertVarBody | menv_proc_macro/src/lib.rs:82-89 | one `@assert` call per declaration, in order |
| ProcMacro.Getters | menv_proc_macro/src/lib.rs:115-123 | one `@func` call per declaration, in order |
| ProcMacro.AnySetBody | menv_proc_macro/src/lib.rs:91-101 | a single bracket group with a `@get_res` call and a `,` per declaration (7·n trees) |
| ProcMacro.HelpBody | menv_proc_macro/src/lib.rs:103-113 | a single bracket group with an `@etext` call and a `,` per declaration (7·n trees) |
| ProcMacro.Errors | menv_proc_macro/src/lib.rs:125-129 | `errors!` expands to nothing |
| ProcMacro.CompileErrors | menv_proc_macro/src/lib.rs:131-141 | one string-literal token per diagnostic, in order, with its message and span |
| ProcMacro.Unwrapped | menv_proc_macro/src/lib.rs:152-155 | the tree reached by taking the first tree of each group; an empty group is the `unwrap` that panics; `TrimmedHelpLooksThroughGroups` uses it |
| ProcMacro.HelpOutput | menv_proc_macro/src/lib.rs:156-185 | the `'parse` block on a literal token: the decoder's panics, the non-string error for `Unknown`, or the trimmed string literal at the literal's span, with the decoder's diagnostics dropped |
| ProcMacro.TrimmedHelpOf | menv_proc_macro/src/lib.rs:143-186 | `trimmed_help!`: unwraps groups to a literal, panics on a missing tree, an empty group or a non-literal, and otherwise yields `HelpOutput`; `HelpOutputCases` states the cases |
| ProcMacro.HelpOutputReported | menv_proc_macro/src/lib.rs:156-185 | the corrected `'parse` block: as `HelpOutput`, with every diagnostic the decoder collected emitted after the literal; `HelpOutputReportsDiagnostics` states the layout |
| ProcMacro.TrimmedHelp | menv_proc_macro/src/lib.rs:143-186 | the group-unwrapping loop and the `'parse` block yield exactly `TrimmedHelpOf`, panics included |
| ProcMacro.Pieces | menv_proc_macro/src/lib.rs:40-50 | the `cdecl` runs of the loop: a new run at each `;`, every other tree appended to the current run, the last run kept even when empty; `PiecesConcat` and `PiecesCount` relate it to the input |
| ProcMacro.Declarations | menv_proc_macro/src/lib.rs:40-53 | the `decls` vector: every run, except a last run that is empty; `DeclarationsConcat` and `DeclarationCount` characterise it |
| ProcMacro.StreamOf | menv_proc_macro/src/lib.rs:31-60 | `Stream::parse`: the crate identifier, the declarations and an empty error list |
| ProcMacroProperties.PiecesHaveNoSemicolon | menv_proc_macro/src/lib.rs:42-49 | no run between separators holds a `;` |
| ProcMacroProperties.DeclarationsHaveNoSemicolon | menv_proc_macro/src/lib.rs:42-47 | no declaration holds a `;` punct |
| ProcMacroProperties.PiecesConcat | menv_proc_macro/src/lib.rs:41-50 | the runs between separators, concatenated, are the tokens without `;` |
| ProcMacroProperties.DeclarationsConcat | menv_proc_macro/src/lib.rs:41-53 | the declarations, concatenated in order, are the tokens after the crate with every `;` removed |
| ProcMacroProperties.PiecesCount | menv_proc_macro/src/lib.rs:43-50 | there is one run per `;` plus one, the last being the tokens after the last `;` |
| ProcMacroProperties.DeclarationCount | menv_proc_macro/src/lib.rs:43-53 | the number of declarations is the number of `;`, plus one when tokens follow the last `;` |
| ProcMacroProperties.PiecesSplit | menv_proc_macro/src/lib.rs:43-46 | a `;` separates the runs of what precedes it from those of what follows |
| ProcMacro.PiecesSnoc | menv_proc_macro/src/lib.rs:41-50 | one more token either opens a new run (a `;`) or extends the last run |
| ProcMacroProperties.DeclarationAt | menv_proc_macro/src/lib.rs:43-47 | every run that a `;` closes is a declaration, at the same index |
| ProcMacroProperties.ConsecutiveSemicolons | menv_proc_macro/src/lib.rs:43-46 | two consecutive `;` yield an empty declaration at the index after those before them |
| ProcMacroProperties.TrailingSemicolon | menv_proc_macro/src/lib.rs:51-53 | a `;` after a non-empty last declaration adds no declaration |
| ProcMacroProperties.StreamShape | menv_proc_macro/src/lib.rs:36-59 | the first tree is the crate and the error list is empty, so `errors!` is empty |
| ProcMacroProperties.CallRoundTrip | menv_proc_macro/src/lib.rs:63-78 | a generated call is `krate : : require_envs ! { @ method tokens }` and reads back as its crate, method and unchanged tokens |
| ProcMacroProperties.ForwardedCalls | menv_proc_macro/src/lib.rs:84-88 | the calls, read back, forward the declarations' tokens in order |
| ProcMacroProperties.ForwardedCallsWithCommas | menv_proc_macro/src/lib.rs:94-99 | the comma-separated calls, read back, forward the declarations' tokens in order |
| ProcMacroProperties.PlainBodiesForwardTokens | menv_proc_macro/src/lib.rs:82-123 | `assert_var_body!` and `getters!`, read back, forward the input after the crate minus its `;` |
| ProcMacroProperties.ListBodiesForwardTokens | menv_proc_macro/src/lib.rs:91-113 | `any_set_body!` and `help_body!`, read back, forward the input after the crate minus its `;` |
| ProcMacroProperties.HelpOutputCases | menv_proc_macro/src/lib.rs:163-185 | `trimmed_help` panics exactly when the decoder does. A literal starting with neither `"` nor `r` gives exactly the non-string error, and a string gives exactly its trimmed text at the literal's span |
| ProcMacroProperties.TrimmedHelpLooksThroughGroups | menv_proc_macro/src/lib.rs:152-155 | a literal wrapped in a group is treated as the literal itself |
| ProcMacroProperties.TrimmedHelpDropsDiagnostics | menv_proc_macro/src/lib.rs:164-181 | `"\q"` decodes with an invalid-escape diagnostic, yet `trimmed_help` emits the literal alone |
| ProcMacroProperties.TrimmedHelpDropsSuffix | menv_proc_macro/src/lib.rs:164-181 | `"abc"xyz` decodes with the suffix diagnostic, yet `trimmed_help` emits the literal `abc` alone |
| ProcMacroProperties.HelpOutputReportsDiagnostics | menv_proc_macro/src/lib.rs:163-185 | with the correction, the trimmed literal is followed by every decoder diagnostic in order, with its message and span |
| ProcMacroProperties.ReportedOfOutput | menv_proc_macro/src/lib.rs:163-185 | with the correction, a decoded string literal expands to its trimmed text followed by the errors of its `Output` |
| ProcMacroProperties.ReportedShape | menv_proc_macro/src/lib.rs:131-141 | the trimmed literal comes first, then one string-literal token per diagnostic, in order, with its message and span |
| ProcMacroProperties.ReportedInvalidEscape | menv_proc_macro/src/lib.rs:163-185 | with the correction, `"\q"` also emits `invalid string escape at byte offset: 1` |
| ProcMacroProperties.ReportedSuffix | menv_proc_macro/src/lib.rs:163-185 | with the correction, `"abc"xyz` also emits `string literal suffixes are not supported` |

## Left out

- Spans are opaque values (`Span`). `set_span`, `Span` arithmetic and the `proc_macro` bridge are not modelled.
- `compile_error` re-lexes `"{text}"` with `TokenStream::from_str` (lib.rs:131-141). It is modelled as the
  one string-literal token it yields, `StringLit(message, span)`; none of the messages holds a quote or a
  backslash.
- `Literal::string` escapes its value for printing (lib.rs:179). `StringLit` holds the value itself.
- `str::trim` (lib.rs:179) depends on std's Unicode whitespace tables. It is a parameter `trim` of `TrimmedHelp`.
- `lit.to_string()` (lit_parse.rs:29) is taken as given: the token text is the input.
- Which tokens the compiler wraps in invisible groups is outside the model. The unwrapping loop of
  lib.rs:152-155 is modelled for any group.
- `Deref`/`DerefMut` on `Output` (lit_parse.rs:61-71) forward to the field `x` and need no model.
- Release builds without overflow checks, where `\x` arithmetic would wrap instead of panicking. The model
  follows builds with overflow checks.
- ProcMacro.ParseStream: a missing or non-identifier first tree is a precondition rather than the panic of
  lib.rs:36-37, because `require_envs!` always passes `$crate` first.
- ProcMacro.CallRequireEnvs: its own ensures states only the length and the first tree. The full layout
  is stated and read back by ProcMacroProperties.CallRoundTrip.
- `TokenStream::from_str(",")` (lib.rs:98, 110) is modelled as the token it yields, `Punct(',', Alone)`.
- ProcMacro.TrimmedHelpOf: a token built by `Literal::string` (`StringLit`) is not a lexed `Lit`, so the model
  panics on it where lib.rs:156 would decode its printed form. `help_body!` only forwards a lexed
  `$etext:literal`, so such a token never reaches `trimmed_help`.
- The `macro_rules!` runtime crate (environment lookup through `std::env::var` and `FromStr`) and the
  usage example are not part of this model.

## Findings

| source | as written | input that shows it | evidently intended | confidence | as-written member | corrected member |
|---|---|---|---|---|---|---|
| menv_proc_macro/src/lib.rs:164-181 | `trimmed_help` reads only the data and the span of the `Output` that `Literal::parse` returns. It never emits the invalid-escape and suffix diagnostics collected in `Output.errors` | the help literal `"abc"xyz`, which the lexer accepts, decodes with the suffix diagnostic but expands to the string literal `abc` alone; `"\q"` shows the same for an invalid-escape diagnostic (`TrimmedHelpDropsDiagnostics`) | those diagnostics are emitted as compile errors after the literal, as the decoder's collect-and-continue design intends | not executed; high that the errors are dropped, medium that dropping them is unintended | ProcMacroProperties.TrimmedHelpDropsSuffix | ProcMacro.HelpOutputReported |
