# RustyBox shell front end, `basename` and `test`, in Dafny

This project models four parts of RustyBox, a multi-call utility bundle written in Rust:

- **The shell tokenizer.** This is `token` and `after_comment` in `src/utils/sh.rs`, and `raw_token` in `src/utils/sh/tokenizer.rs`. Both scanners are loops that change local variables and return early from inside the loop. They are modelled as Dafny methods with `for` loops. Each method is proved equal to a specification function (`Sh.TokenSpec`, `Tokenizer.RawTokenSpec`), and the behaviour of those functions is proved in lemmas. The source's own test vectors are included.
- **The parser and syntax tree.** These are the nom combinator parsers of `src/utils/sh/parser.rs` (`assignment_word`, `simple_command`, `word_with_name`, `op_with_name`, `pipeline_segment`, `pipeline_sequence`), the records of `src/utils/sh/ast_nodes.rs`, and the expander of `src/utils/sh/expansions.rs`. They are modelled as pure functions over byte sequences.
  - The token accessors `word` and `op` are not defined in any of these files. They are the two fields of a `Lexer` value.
  - Most facts are proved for every lexer. A few facts also need the lexer to consume input on success (`Parser.ValidLexer`).
  - nom's `opt` and `many0` are written as Dafny functions (`Parser.Opt`, `Parser.Many0`). `many0` keeps nom's rule that a step consuming nothing is an error.
- **`basename`** (`src/utils/basename.rs`). This is `strip_suffix`, `get_basename` and the operand checks of `basename_main`. Rust's `Path::file_name` is stated over bytes:
  - it takes the last piece between slashes;
  - empty pieces and `.` pieces are skipped;
  - the result is `None` for `..`.
- **`test`** (`src/utils/test.rs`). This is `test_expr1`, `test_expr2`, `test_path`, `check_access` and `test_main`. The system calls are answered by a `Host` value:
  - the effective user and group;
  - the supplementary groups;
  - `stat` of a path;
  - `isatty`.
  `st_mode` is a `bv32`, and the libc mode bits have their Linux values.

Bytes are `Bytes.Byte` (0..255). A nom result is `Bytes.Parsed`, which is `Ok(rest, value)` or `Err`.

The model follows the code as written, including where it departs from the POSIX token rules its comments cite:
- A newline is included in the token that it ends: `foo\nbar` gives `foo\n`.
- `#` after word bytes is part of the word.
- `token` never fails, and gives an empty token on blank input.
- `raw_token` fails at the end of input unless the token has at least two bytes.
- No operator table classifies the operator runs.
- `!` is read with the operator accessor.
- `assignment_word` also fails on a word that starts with `=`.
- `basename` prints `.` for an empty path without stripping the suffix.

## Model

| member | source | states |
|---|---|---|
| Sh.IsOpCharacter | src/utils/sh.rs:74-76 | an operator character is never a blank, a newline or `#` |
| Sh.IsOpInitial | src/utils/sh.rs:70-76 | every operator-initial byte (`&`, pipe, `;`, `<`, `>`) is also an operator character, and `-` is not initial |
| Sh.IsBlank | src/utils/sh.rs:78-80 | a blank (space or tab) is never an operator character |
| Sh.IsNewline | src/utils/sh.rs:82-84 | the newline byte is neither an operator character nor a blank |
| Sh.IsComment | src/utils/sh.rs:86-88 | `#` is in none of the other classes, so the scan's order of tests does not matter for it |
| Sh.IsWordByte | src/utils/sh.rs:138-158 | a byte that extends a begun word is none of operator-initial, newline or blank; `#` is such a byte |
| Sh.AfterCommentSpec | src/utils/sh.rs:90-98 | the bytes after the first newline, or nothing when there is no newline; always a suffix, shorter than a non-empty input |
| Sh.AfterComment | src/utils/sh.rs:90-98 | the scanning loop returns exactly `AfterCommentSpec` |
| Sh.Scan | src/utils/sh.rs:105-168 | the scan stops after a token of positive length at a delimiter, at the end of input, or at a `#` right after the leading blanks |
| Sh.TokenSpec | src/utils/sh.rs:100-173 | what `token` returns: it never fails, and the rest is a suffix of the input, strictly shorter whenever the input is not empty |
| Sh.TokenShape | src/utils/sh.rs:100-173 | blank-only input gives an empty token and empty rest; the token is empty iff the input is all blanks; a leading comment gives `\n` and the bytes after its newline; otherwise the token is a prefix of the input and the rest a suffix |
| Sh.TokenAtOperatorEnd | src/utils/sh.rs:110-119 | an operator run begun after the leading blanks ends at the first non-operator byte, which starts the rest |
| Sh.TokenAtWordEnd | src/utils/sh.rs:126-158 | a word ends before an operator byte, takes a following newline into the token, and drops a following blank |
| Sh.TokenAtFirstNonBlank | src/utils/sh.rs:138-164 | the first non-blank byte decides: the end gives an empty token, a newline gives the first byte of the input as the token (the newline itself only when no blank comes first) with the rest after the newline, a `#` the token `\n` with the rest after the comment |
| Sh.OperatorEndsToken | src/utils/sh.rs:117-118 | the slice the loop returns when an operator run ends is the specified token |
| Sh.WordEndsToken | src/utils/sh.rs:128-148 | the slices the loop returns when a word ends are the specified token and rest |
| Sh.FirstNonBlankEndsToken | src/utils/sh.rs:138-172 | the slices the loop returns at the first non-blank byte are the specified token and rest |
| Sh.Token | src/utils/sh.rs:100-173 | `token` never fails and returns exactly `TokenSpec` of its input |
| ShTokenCases.TokenWordAtEnd | src/utils/sh.rs:155-172 | a word with no delimiter is returned whole with empty rest |
| ShTokenCases.TokenWordBeforeOperator | src/utils/sh.rs:126-131 | a word followed by an operator-initial byte stops before it; the rest starts at the operator |
| ShTokenCases.TokenWordBeforeBlank | src/utils/sh.rs:145-148 | a blank ends a word and is consumed |
| ShTokenCases.TokenWordBeforeNewline | src/utils/sh.rs:138-141 | a newline after a word is part of the token |
| ShTokenCases.TokenOperator | src/utils/sh.rs:110-134 | an operator token is the maximal run of operator characters begun by an operator-initial byte |
| ShTokenCases.TokenNewlineFirst | src/utils/sh.rs:138-141 | a leading newline is a token of its own |
| ShTokenCases.TokenCommentFirst | src/utils/sh.rs:161-164 | a leading `#` gives the token `\n` and the bytes after the next newline |
| ShTokenCases.AfterCommentSkips | src/utils/sh.rs:90-98 | `after_comment` skips any byte that is not a newline |
| ShTokenCases.TokenLeadingBlanksKept | src/utils/sh.rs:103-104 | since the token start stays 0, leading blanks are inside the returned slice, and the word's last bytes are cut off |
| ShTokenCases.TokenBlankOnly | src/utils/sh.rs:145-172 | blank-only input gives an empty token and empty rest |
| ShTokenCases.TokenBlanksThenNewline | src/utils/sh.rs:103-104 | blanks and then a newline give the first blank as the token, since the slice starts at 0, and the bytes after the newline as the rest |
| ShTokenCases.TokenCommentLine | src/utils/sh.rs:161-164 | a comment line gives the token `\n` and exactly the bytes after its newline |
| ShTokenCases.TokenVectorsEndSpace | src/utils/sh.rs:214-215 | vectors `test_end` and `test_space` |
| ShTokenCases.TokenVectorsPipe | src/utils/sh.rs:216-217 | vectors `test_op` and `test_op2` |
| ShTokenCases.TokenVectorsAmp | src/utils/sh.rs:218-219 | vectors `test_op3` and `test_op4` |
| ShTokenCases.TokenVectorsSemi | src/utils/sh.rs:220-221 | vectors `test_op5` and `test_op6` |
| ShTokenCases.TokenVectorsAndIf | src/utils/sh.rs:222-223 | vectors `test_op7` and `test_op8` |
| ShTokenCases.TokenVectorsOrIf | src/utils/sh.rs:224-225 | vectors `test_op9` and `test_op10` |
| ShTokenCases.TokenVectorsOrIfSpaced | src/utils/sh.rs:226-227 | vectors `test_op11` and `test_op12` |
| ShTokenCases.TokenVectorNewline | src/utils/sh.rs:228 | vector `test_newline` |
| ShTokenCases.TokenVectorNewline2 | src/utils/sh.rs:229 | vector `test_newline2` |
| ShTokenCases.TokenVectorComment | src/utils/sh.rs:230 | vector `test_comment` |
| ShTokenCases.TokenVectorHashInWord | src/utils/sh.rs:231 | vector `test_comment2`: `#` after word bytes is word content |
| Tokenizer.RawTokenSpec | src/utils/sh/tokenizer.rs:9-89 | what `raw_token` returns: always a `Word` with a strictly shorter suffix of the input as rest; the empty input is an error |
| Tokenizer.RawTokenAgreesWithToken | src/utils/sh/tokenizer.rs:9-89 | `raw_token` only builds `Word`; when it succeeds it returns what `token` returns; it fails iff the scan reaches the end with a token shorter than two bytes |
| Tokenizer.OperatorEndsRawToken | src/utils/sh/tokenizer.rs:20-29 | the slice returned when an operator run ends is the specified token; at the end of input it is kept only when at least two bytes long |
| Tokenizer.WordEndsRawToken | src/utils/sh/tokenizer.rs:36-68 | the slices returned when a word ends are the specified token and rest; at the end of input a word shorter than two bytes is an error |
| Tokenizer.FirstNonBlankEndsRawToken | src/utils/sh/tokenizer.rs:48-88 | blank-only input is an error; a newline gives `Word` of the first byte of the input (the newline only when no blank comes first) with the rest after the newline; a leading comment gives `Word("\n")` |
| Tokenizer.RawToken | src/utils/sh/tokenizer.rs:9-89 | the loop, with its `active_tok` flag read after the loop, returns exactly `RawTokenSpec` of its input |
| TokenizerCases.RawTokenBlankOnly | src/utils/sh/tokenizer.rs:80-88 | empty or blank-only input is an error |
| TokenizerCases.RawTokenLoneByte | src/utils/sh/tokenizer.rs:14-17 | a word or operator byte that is the last byte of the input, after any blanks, is an error, since `active_tok` was computed before that byte was counted |
| TokenizerCases.RawTokenWordAtEnd | src/utils/sh/tokenizer.rs:80-83 | a word of two or more bytes at the end is returned whole |
| TokenizerCases.RawTokenAsToken | src/utils/sh/tokenizer.rs:27-83 | whenever `token` gives a token of two or more bytes, `raw_token` gives the same token as a `Word` with the same rest |
| TokenizerCases.RawTokenVectorsLoneByte | src/utils/sh/tokenizer.rs:80-88 | `a` and a lone pipe byte are errors |
| TokenizerCases.RawTokenVectorTwoBytes | src/utils/sh/tokenizer.rs:80-83 | `ab` is returned whole |
| TokenizerCases.RawTokenWordBeforeOperator | src/utils/sh/tokenizer.rs:36-40 | a word stops before an operator byte |
| TokenizerCases.RawTokenVectorPipe | src/utils/sh/tokenizer.rs:141 | the vector `foo`-pipe-`bar` gives `foo`, with the rest starting at the pipe |
| AstNodes.Eval | src/utils/sh/ast_nodes.rs:49-51 | a word rebuilt from its evaluation is the same word |
| AstNodes.WordNew | src/utils/sh/ast_nodes.rs:45-52 | `eval` of `Word::new(t)` is exactly `t`, and every word with that evaluation is that word |
| Parser.Opt | src/utils/sh/parser.rs:21 | `opt` never fails |
| Parser.Many0 | src/utils/sh/parser.rs:20 | `many0` succeeds with no values and nothing consumed when the first run fails; when it succeeds, the parser fails where it stopped, and a non-empty result has consumed input |
| Parser.Many0Chain | src/utils/sh/parser.rs:20-22 | a `many0` result is a chain of successive parses that stops where the parser fails; with a consuming parser `many0` never fails |
| Parser.Many0OfChain | src/utils/sh/parser.rs:20-22 | conversely, such a chain ending where the parser fails is the `many0` result |
| Parser.ChainSuffix | src/utils/sh/parser.rs:73 | what remains after a chain of a consuming parser is a suffix, strictly shorter when the chain is non-empty |
| Parser.TakeUntil1 | src/utils/sh/parser.rs:34 | succeeds iff the byte occurs and is not first; the value is the non-empty prefix before its first occurrence |
| Parser.ParseAssignmentWord | src/utils/sh/parser.rs:32-40 | succeeds iff the word contains `=` and does not start with it; name is the bytes before the first `=`, value those after; the rest is the word's rest |
| Parser.OpWithName | src/utils/sh/parser.rs:53-62 | succeeds iff the next operator token is exactly the name, consuming it |
| Parser.WordWithName | src/utils/sh/parser.rs:42-51 | behaves as `op_with_name`, since it reads an operator token |
| Parser.ParseSimpleCommand | src/utils/sh/parser.rs:19-29 | on success no further word parses where it stopped, and a command without a name has no arguments |
| Parser.PipelineSegment | src/utils/sh/parser.rs:64-68 | succeeds only when the next operator token is exactly the pipe byte, and whenever it is, the result is the simple command parsed after that token |
| Parser.PipelineSequence | src/utils/sh/parser.rs:70-79 | on success there is at least one command, `bang` is set iff a leading `!` token was read, and no further pipe segment parses where it stopped |
| ParserCases.SimpleCommandShape | src/utils/sh/parser.rs:19-29 | with a consuming lexer it never fails and leaves a suffix; it stops where no word parses; without a command name there are no arguments |
| ParserCases.SimpleCommandOf | src/utils/sh/parser.rs:19-29 | assignments while they parse, then the first word as name, then every word as argument, in order |
| ParserCases.SimpleCommandWithoutName | src/utils/sh/parser.rs:19-29 | with no word after the assignments, the command has no name and no arguments |
| ParserCases.PipelineSequenceShape | src/utils/sh/parser.rs:70-79 | `bang` iff a leading `!` operator was read; the first command is at index 0, then the pipe segments in order up to where none parses; never fails with a consuming lexer |
| ParserCases.PipelineSequenceOf | src/utils/sh/parser.rs:70-79 | conversely, a first command and a maximal chain of segments are the pipeline |
| ParserCases.AssignmentWordIs | src/utils/sh/parser.rs:32-40 | a word `name=value` with a non-empty `=`-free name splits there |
| ParserCases.AssignmentWordVector | src/utils/sh/parser.rs:92-101 | vector `foo=bar` gives name `foo`, value `bar` |
| ParserCases.SimpleCommandVector | src/utils/sh/parser.rs:104-118 | vector `echo hello world` gives name `echo` and arguments `hello`, `world` |
| ParserCases.PlainCommand | src/utils/sh/parser.rs:19-29 | a first word without `=` is the command name |
| ParserCases.AssignmentNameArgument | src/utils/sh/parser.rs:20-22 | after the command name a word with `=` is an argument |
| ParserCases.AssignmentOnlyBeforeName | src/utils/sh/parser.rs:20-22 | `x=1 cmd y=2` gives one assignment, name `cmd`, argument `y=2` |
| ParserCases.PipelineVector | src/utils/sh/parser.rs:121-135 | vector `! ls`, pipe, `grep stuff`, pipe, `cat` gives bang and the three commands in order |
| Expansions.Expand | src/utils/sh/expansions.rs:21-32 | text expands to itself; a variable to its stored value, or to nothing when it is not set |
| Expansions.ParseText | src/utils/sh/expansions.rs:43-48 | the longest `$`-free prefix, possibly empty; never fails |
| Expansions.ParseVariable | src/utils/sh/expansions.rs:50-55 | succeeds iff `$` is followed by a name byte; the name is the maximal run of `[0-9A-Za-z_]`, returned as `Text` |
| Expansions.ParseExpandable | src/utils/sh/expansions.rs:35-41 | `expandable` never fails and always yields `Text`; it leaves a suffix of its input; after `$` and a name byte it consumes input and yields non-empty text; where `variable` fails it is `text` |
| ExpansionCases.LoneDollar | src/utils/sh/expansions.rs:35-48 | a `$` without a name is empty text and consumes nothing |
| ExpansionCases.TextUpToDollar | src/utils/sh/expansions.rs:35-48 | text runs up to the next `$` |
| ExpansionCases.VariableIsLiteralName | src/utils/sh/expansions.rs:21-55 | `$name` parses to the text `name`, which expands to `name` itself in any environment |
| Basename.FileName | src/utils/basename.rs:30-36 | a file name is non-empty, slash-free, and neither `.` nor `..` |
| Basename.StripSuffix | src/utils/basename.rs:8-21 | unchanged when the suffix is the whole string or not at its end; otherwise the non-empty rest that the suffix completes |
| Basename.GetBasename | src/utils/basename.rs:23-40 | never empty; `.` for the empty path |
| Basename.BasenameMain | src/utils/basename.rs:42-59 | success iff one or two operands; the two messages; otherwise the basename of the first operand with the second (or empty) suffix, and a newline |
| BasenameCases.FileNameTrailingSlash | src/utils/basename.rs:30-36 | a trailing slash does not change the file name |
| BasenameCases.FileNameTrailingSlashes | src/utils/basename.rs:30-36 | nor do any number of them |
| BasenameCases.FileNameLast | src/utils/basename.rs:30-36 | the file name is the proper name after the last slash |
| BasenameCases.FileNameOfSlashes | src/utils/basename.rs:30-36 | a path of slashes has no file name |
| BasenameCases.DotPathsGiveSlash | src/utils/basename.rs:33-36 | `.` and `..` have no file name, so their basename is `/` |
| BasenameCases.StripSuffixOnce | src/utils/basename.rs:17-20 | a suffix after a non-empty name is removed exactly once |
| BasenameCases.StripSuffixMismatch | src/utils/basename.rs:17-18 | a suffix that differs at one position from the end is not removed |
| BasenameCases.BasenameOfName | src/utils/basename.rs:42-58 | one operand prints the name after its last slash |
| BasenameCases.BasenameWithSuffix | src/utils/basename.rs:23-58 | the name after the last slash, before trailing slashes, is printed with the suffix stripped |
| BasenameCases.VectorBasic | tests/test_basename.rs:30 | `foo/bar` gives `bar` |
| BasenameCases.VectorNullString | tests/test_basename.rs:33 | the empty path gives `.` |
| BasenameCases.VectorSlashesOnly | tests/test_basename.rs:36 | `///////` gives `/` |
| BasenameCases.VectorTrailingSlashes | tests/test_basename.rs:37 | `a//////` gives `a` |
| BasenameCases.VectorCombinedSlashes | tests/test_basename.rs:38 | `/////a///b///c///d/////` gives `d` |
| BasenameCases.VectorStandardSuffix | tests/test_basename.rs:41 | `a/b/c/d.suffix .suffix` gives `d` |
| BasenameCases.VectorSuffixResult | tests/test_basename.rs:44 | `.txt .txt` gives `.txt` |
| BasenameCases.VectorReappearingSuffix | tests/test_basename.rs:47 | `a.txt.txt .txt` gives `a.txt` |
| BasenameCases.VectorSuffixInside | tests/test_basename.rs:48 | `a.txt.old .txt` is unchanged |
| BasenameCases.VectorInvalidSuffix | tests/test_basename.rs:51 | `isthisasuffix? suffix` is unchanged |
| BasenameCases.VectorQuotedSuffix | tests/test_basename.rs:54 | `a/b/c ''` gives `c` (the suffix is the two quote bytes) |
| Test.TestExpr1 | src/utils/test.rs:39-45 | one operand is true iff it is non-empty |
| Test.ModeBits | src/utils/test.rs:50-54 | one permission bit per class: the other bit is a read, write or execute bit (read for `Read`, write for `Write`, execute otherwise), the group bit is it shifted by 3 and the user bit by 6 |
| Test.CheckAccess | src/utils/test.rs:47-85 | root may read and write but never execute (the ANDed execute bits are zero); anyone else iff owner with the user bit, or effective group in the supplementary groups with the group bit, or the other bit |
| Test.TestPath | src/utils/test.rs:99-128 | a missing path fails every test; `-e` iff it exists; the link test is always false; `-u` and `-g` both test `S_ISGID`; `-s` iff the file exists with a positive size |
| Test.PathTestFor | src/utils/test.rs:132-150 | only two-byte operators starting with `-` select a file test, and exactly `-h` and `-L` select the link test |
| Test.ParseI32 | src/utils/test.rs:147 | a parsed descriptor lies in the `i32` range |
| Test.IsTerminal | src/utils/test.rs:147 | an error iff the operand does not parse or `isatty` fails other than with `ENOTTY`; true iff it is a terminal |
| Test.TestExpr2 | src/utils/test.rs:130-159 | `!` and `-z` iff the operand is empty, `-n` iff not; `-t` asks the terminal; path operators run their test; an unknown operator is false; only `-t` can fail in this model, where one `Host.stat` answer stands for all three probes |
| Test.TestMain | src/utils/test.rs:161-178 | no operand or more than two is `FAILURE`; one operand never fails and is `SUCCESS` iff it is non-empty; with two, `SUCCESS` iff the expression is true, and an error is passed on |
| TestCases.RootAccessFixed | src/utils/test.rs:58-65 | root's answer does not depend on the file |
| TestCases.AccessMonotone | src/utils/test.rs:67-84 | setting more mode bits never takes access away |
| TestCases.AccessIgnoresFileGroup | src/utils/test.rs:72-77 | the file's group is never compared |
| TestCases.UidTestIsGidTest | src/utils/test.rs:116-122 | `-u` answers as `-g`, so a set-user-id file without `S_ISGID` fails `-u` |
| TestCases.LinkTestsAreFalse | src/utils/test.rs:140-141 | `-h` and `-L` are false for every path |
| TestCases.KindTestsExclusive | src/utils/test.rs:99-128 | no path passes two different file-kind tests, and a path that passes one exists |
| TestCases.StringOperatorsAgree | src/utils/test.rs:133-151 | `!` agrees with `-z`, and `-n` is their negation |
| TestCases.OneOperandIsNonEmpty | src/utils/test.rs:165-166 | one operand gives the same answer as `-n` with that operand |
| TestCases.ErrorsComeFromTerminalTest | src/utils/test.rs:161-171 | in this model, where one `Host.stat` answer stands for all three probes, an error only comes from `-t`, with an unparsable operand or an `isatty` error |
| TestCases.ParseRendered | src/utils/test.rs:147 | every `i32` written in decimal parses back to itself |
| TestCases.ParseOutOfRange | src/utils/test.rs:147 | a decimal number outside the `i32` range does not parse |
| TestCases.SignAloneDoesNotParse | src/utils/test.rs:147 | the empty operand, `+` and `-` do not parse |

## Left out

- The executor is not modelled: spawning, pipes, exit statuses, and `&&`/`||`/`!` at run time. `src/utils/sh/mod.rs` calls it, but its body is not part of this model.
- The operand checks, the script-file reading (`File::open`, `read_to_end`) and the `println!` diagnostics of `sh_main` in `src/utils/sh/mod.rs` are I/O and are left out. So are the error plumbing of `src/utils/sh/error.rs` and the `info!`/`error!` logging.
- The token accessors `word` and `op` are not part of this model. They are the two fields of `Parser.Lexer`, and `Parser.ValidLexer` is the only property assumed of them.
- `ExecEnv` and `VarValue` are not part of this model. The environment is a map from names to a value and an export flag.
- Expansions.Expand: `CommandSub` and `Arithmetic` are excluded by its precondition, because the source calls `unimplemented!()` (a panic) for them.
- nom's `take_till`, `is_a`, `tag`, `alt`, `take_until1`, `opt` and `many0` are stated by their documented behaviour, not by nom's code. nom's `Incomplete` and `Failure` results never arise with complete input and are left out.
- Basename.FileName states Rust's `Path::file_name` for byte paths. Rust's `Path` code itself is not modelled.
- Basename.BasenameMain: the `println!` and `write_line` output is the `output` field. A failed write to standard output is not modelled.
- Test.TestPath: the `exists`, `fs::metadata` and libc `stat` probes are one `Host.stat` answer. A file changing between these probes is not modelled. Nor is the missing NUL terminator on the path that `safe_libc::stat` passes to libc.
- Test.TestExpr2 / TestCases.ErrorsComeFromTerminalTest: the `safe_libc::stat(path)?` of `check_access` (src/utils/test.rs:56, reached by `-r`, `-w` and `-x`) and the `fs::metadata(path)?` of `test_path` (src/utils/test.rs:106) can return an error after `exists()` succeeded, by a race or by the missing NUL terminator. The single `Host.stat` answer cannot fail that way, so these error paths are not modelled and the model's `-t`-only error claim is weaker than the program's behaviour.
- Test.TestExpr2: the UTF-8 check and `from_str_radix` for `-t` are one parse. `from_utf8` accepts operands such as `abc` that `from_str_radix` rejects, but every operand it rejects holds a byte that is not an ASCII digit or sign, which `from_str_radix` would reject too. So the two together fail exactly where `Test.ParseI32` returns `None`, and only that combined error is modelled.
- The group list is a `Host` field. `safe_libc::getgroups` is not part of this model.
- The operator table, quoting, `logical_segment`, `expression`, `complete_command` and `script` rules are left out, because none of them is defined in the modelled files.
