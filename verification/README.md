# recasm core, modelled in Dafny

This project models the live assembler pipeline of `recasm`, an assembler for ReCOP-class CPUs, as it stands in `src/main.rs`. It has four parts, all pure functions over strings and small enumerations.

- **Lexer** (`lex`). It trims the text and cuts it at line feeds. It trims every line and drops the blank ones. Each remaining line becomes one token list, with one token per single-space-separated piece. A piece is classified by its first character: `r` gives a register, `#` an immediate, `$` a direct operand, each without its sigil. Any other piece is a label if it ends in `:` and a mnemonic (`Opcode`) otherwise.
- **Addressing-mode resolver** (`parse_addr_mode_operand`). It checks the kind of an instruction's last token against the `inh`/`imm`/`reg`/`dir` flags of its table entry. An absent flag counts as false.
- **Line validator** (`parse`). For each token list in order, it requires a leading mnemonic that is in the instruction table and followed by exactly `args` tokens. The first failure ends the run, and the error records the list's index. The snapshot binds the resolver's result without using it, and it never appends an instruction. So a successful run yields the empty sequence, and that is what the model proves.
- **Instruction word** (`Inst`, `AddrMode`). The layout is `[addr_mode:2][opcode:6][reg_z:4][reg_x:4][operand:16]`, most significant field first, with the operand in 16-bit two's complement. The model writes packing and unpacking as explicit arithmetic on a 32-bit value. It also serialises the word to four big-endian bytes.

Modules: `Results` (Option/Result), `Text` (Rust's `trim` and `split`), `Tokens`, `Lexer`, `Defs` (the table entry, the modes, the errors), `Resolver`, `Parser` and `Encoding`.

Facts of the code that the model follows:
- The addressing modes are numbered Inh=0, Imm=1, Reg=2, Dir=3, as in `src/main.rs:36-41`.
- The code has no label table, no `;` comments, no `'` label references, no operand parsing and no operand-as-register rule. None of these are modelled.
- A line that begins with a `name:` label is not consumed as a declaration. It becomes a `Label` token, and `parse` rejects it with `OpcodeExpected`.

## Model

| member | source | states |
|---|---|---|
| Text.TrimSpec | src/main.rs:182 | `trim` leaves a slice of its input with only whitespace (Unicode White_Space, as `char::is_whitespace`) before and after it, and non-whitespace at both of its ends |
| Text.TrimStartSpec | src/main.rs:182 | the leading-whitespace cut keeps exactly the longest suffix that starts with a non-whitespace character |
| Text.TrimEndSpec | src/main.rs:182 | the trailing-whitespace cut keeps exactly the longest prefix that ends with a non-whitespace character |
| Text.TrimFixedPoint | src/main.rs:182 | a string is unchanged by `trim` if and only if it is empty or has non-whitespace at both ends |
| Text.TrimIdempotent | src/main.rs:190-192 | trimming an already trimmed line changes nothing |
| Text.TrimBlank | src/main.rs:182-189 | a line is blank after trimming if and only if it consists of whitespace only |
| Text.SplitPiecesSeparatorFree | src/main.rs:190-191 | no piece produced by `split` contains the separator |
| Text.JoinSplit | src/main.rs:190-191 | joining the pieces of `split` with the separator gives back the original text, so splitting loses nothing |
| Text.SplitJoin | src/main.rs:190-191 | any separator-free piece list that joins to a text is exactly that text's `split`, so `split` is the inverse of joining |
| Tokens.Classify | src/main.rs:198-208 | the token of a non-empty piece spells back to that piece with its sigil restored, and is well formed: a label or mnemonic has no leading sigil and is told apart by a trailing colon |
| Tokens.ClassifySpelling | src/main.rs:198-208 | classifying the spelling of any well-formed token gives that token back, so classification is a bijection between non-empty pieces and well-formed tokens |
| Lexer.LexLine | src/main.rs:190-210 | a line gives a non-empty token list with one token per space-separated piece, and token j spells the j-th piece once trimmed |
| Lexer.LexLines | src/main.rs:185-213 | the line loop emits at most one list per line and never an empty list |
| Lexer.Lex | src/main.rs:181-216 | `lex` emits exactly one token list per non-blank trimmed line of the trimmed input, and each list is that line's lexed pieces |
| Lexer.LexLinesSelect | src/main.rs:185-213 | line selection: the emitted lists correspond one to one, in source order, to the non-blank trimmed lines |
| Lexer.LexLinesAppend | src/main.rs:185-213 | lines are lexed independently: the lists of two blocks of lines are the lists of each, concatenated in order |
| Lexer.BlankLineSkipped | src/main.rs:186-189 | a whitespace-only line, wherever it stands, contributes nothing |
| Resolver.ResolveAddrMode | src/main.rs:218-258 | corrected resolver: it succeeds if and only if the last token requests a mode (register, immediate, direct, or inherent for a bare mnemonic) whose flag is `Some(true)`, and then returns that mode; otherwise the error is `OperandExpected` for a label or that mode's `…Invalid` error, at the given index |
| Resolver.Enabled | src/main.rs:225 | `unwrap_or(false)` on a mode flag: true if and only if the flag is `Some(true)`, so an absent flag counts as false |
| Resolver.ParseAddrModeOperand | src/main.rs:218-258 | the resolver as written agrees with the corrected one on register, immediate, mnemonic and label tokens; a direct token succeeds if and only if the `dir` flag is set, and then yields register mode, otherwise it fails with `RegInvalid`; it never yields direct mode and never raises `DirInvalid` |
| Resolver.AsWrittenDiffersOnDir | src/main.rs:240-246 | the resolver as written and the corrected one agree on a token if and only if it is not a direct token |
| Resolver.DirOperandResolvesToReg | src/main.rs:240-246 | `$10` with an entry that enables only direct mode resolves to register mode, which that entry does not enable; the corrected resolver gives direct mode |
| Parser.CheckLine | src/main.rs:264-277 | a line passes if and only if it starts with a mnemonic in the table whose `args` equals the number of tokens after it; otherwise the error is `OpcodeExpected` exactly when the first token is not a mnemonic, `OpcodeUndefined` exactly when the mnemonic is missing from the table, and `ArgsNumber` exactly when the count is wrong, always at the line's index |
| Parser.ParseFrom | src/main.rs:263-286 | the loop from index i succeeds (with no instructions) if and only if every later line passes; otherwise its error is the one of the first failing line at or after i, and every line before that one passes |
| Parser.Parse | src/main.rs:260-289 | `parse` returns `Ok` of the empty sequence if and only if every line passes; otherwise it returns exactly the error that line's check raises for the first failing line, all earlier lines pass, and the error is never one of the resolver's |
| Parser.LaterLinesIgnored | src/main.rs:263-277 | fail-fast: replacing every line after the first failing one leaves the result unchanged |
| Parser.ArgumentCountExact | src/main.rs:275-277 | one argument fewer or one more than the entry's `args` gives `ArgsNumber` at that line |
| Parser.FirstPieceMustBeMnemonic | src/main.rs:264-271 | lexing then validating fails with `OpcodeExpected` at index 0 if and only if the first piece of the first non-blank line starts with `r`, `#` or `$` or ends with `:`, so a line that begins with a `name:` label is rejected |
| Encoding.AddrModeCode | src/main.rs:35-41 | each addressing mode's code fits in 2 bits and decodes back to that mode |
| Encoding.AddrModeOfCode | src/main.rs:35-41 | a code stands for an addressing mode if and only if it fits in 2 bits |
| Encoding.AddrModeCodeOfCode | src/main.rs:35-41 | every 2-bit code is the code of the mode it stands for, so the numbering is a bijection |
| Encoding.OperandBits | src/main.rs:20 | the 16-bit two's-complement pattern of an `i16` is below 2^16 and reads back as the same value |
| Encoding.OperandBitsValue | src/main.rs:20 | every 16-bit pattern is the pattern of the value it stands for |
| Encoding.Truncate | src/main.rs:11-20 | reducing each field to its width yields a record that fits the word, and leaves a fitting record unchanged |
| Encoding.Unpack | src/main.rs:9-21 | every 32-bit word unpacks to a record whose fields fit their widths and which packs back to the same word |
| Encoding.UnpackPack | src/main.rs:9-21 | unpacking a packed record gives every field back reduced modulo its width (2, 6, 4 and 4 bits; the operand exactly) |
| Encoding.RoundTrip | src/main.rs:9-21 | a record whose fields fit their widths survives packing and unpacking unchanged |
| Encoding.ToBytes | src/main.rs:9-21 | a record serialises to exactly four bytes |
| Encoding.Pack | src/main.rs:9-21 | the word of a record is its four serialised bytes read big-endian, so `addr_mode` occupies the top two bits and the operand the low sixteen |
| Encoding.AddrModeSurvives | src/main.rs:12-13 | an addressing mode stored in the 2-bit field is read back as the same mode |

## Left out

- Lexer.Lex: it requires every piece of every non-blank line to be non-empty once trimmed, because the source indexes the first character of each piece and panics on an empty one. An example is a doubled space. The panic itself is not modelled.
- Parser.Parse: it requires every token list to be non-empty, because the source indexes `line[0]`. The lexer never produces an empty list.
- Parser.ParseFrom: the resolver's result is computed and dropped, as the source does, and the loop over the middle arguments has no effect, so it is not modelled.
- Resolver.ParseAddrModeOperand: the snapshot's return type and tuples are incomplete, so the result is modelled as the addressing mode alone.
- Encoding: a field wider than its slot is reduced modulo the slot's width when packed. The serialisation library's own handling of such a value is not part of this model.
- `main`, the command-line arguments, reading the instruction table from TOML, reading the input file, and the `println!` debugging output are all I/O.
- `to_lowercase` is Unicode case folding. The input is taken to be already in lower case.
- The commented-out `Display` impl and the commented-out `assemble` function are dead code.
- Coloured terminal rendering of errors is terminal UI.
- The label table, `;` comments, `'` label references, parsing operands and registers to integers, the `ArgParse` error and the operand-as-register rule are absent from this snapshot of the code.

## Findings

| source | as written | input that shows it | evidently intended | confidence | as-written member | corrected member |
|---|---|---|---|---|---|---|
| src/main.rs:240-246 | a direct (`$`) operand is gated by the `dir` flag but resolves to `AddrMode::Reg`, and when `dir` is off it is rejected with `RegInvalid` | `$10` as the last token for an entry with only `dir = true`: register mode, which the entry does not enable | direct mode when `dir` is set, `DirInvalid` otherwise; `DirInvalid` is declared but never raised | not executed; high (the neighbouring arms follow that pattern) | Resolver.ParseAddrModeOperand | Resolver.ResolveAddrMode |

`parse` discards the resolver's result. Its outcome is therefore the same whichever resolver it binds. `Parser.ParseFrom` binds the as-written one, as the source does.
