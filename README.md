# ingles: the line parser, the writer loop and the Intel code generator

`ingles` translates a small English-like language into Intel-syntax (NASM)
assembly. This project models the two sequential pieces at its centre and
proves properties of them in Dafny:

- **Parsing** (`src/operation.rs`). `check` normalises a line. It strips
  leading and trailing whitespace and collapses each run of whitespace to one
  space. It then tests one anchored regular expression and builds an
  `Operation` from the kind, the captured groups, the normalised line and the
  line number. `parse` splits the text on line feeds and, for every line,
  pushes the outcome of all 21 rules in table order. A rule that does not match
  leaves a `None` operation carrying the raw line. Afterwards it copies the
  operations into its result.
- **Writing** (`src/operation.rs`). `write` folds over the operations with a
  current writer. The writer starts as the Intel generator. A `SetWriter`
  operation with more than one argument replaces it: `intel_asm` selects the
  Intel generator and any other name an empty-output writer. A forced
  `IntelAsm` output type bypasses the current writer. The buffers are
  concatenated in order.
- **Generating** (`src/intel_asm_writer.rs`). `generate` looks up a template
  for each kind. It splits the template on line feeds and right-pads each piece to
  column 60. It then appends a trailer ` ; [<line> / <file>] <orig>` and a
  line feed to every piece. An empty
  template produces nothing.

Files and modules (one module per file):

| file | module | contents |
|---|---|---|
| `wrappers.dfy` | `Wrappers` | `Option`, for `check`'s result |
| `text.dfy` | `Text` | the Rust library pieces used: `split`, `join`, decimal formatting, `{:<w}` / `{:>w}` padding, substring containment |
| `whitespace.dfy` | `Whitespace` | the three whitespace substitutions and their properties |
| `operations.dfy` | `Operations` | `OperationType`, `Operation`, `Display`, `to_string`, `Index` |
| `rules.dfy` | `Rules` | the 21 regular expressions as hand-written matchers, with a declarative statement of what each regex accepts |
| `parser.dfy` | `Parser` | `check` and `parse` as methods, proved against the functions `CheckResult` and `Parsed` |
| `intel_asm_writer.dfy` | `IntelAsmWriter` | the templates, the trailer and `generate` as a method |
| `writer.dfy` | `Writer` | `write` as a method over a per-operation writer plan, and the lemmas about writer selection |

What the code does that one might not expect:

- `parse` has no first-match choice, no `include` handling and no syntax
  errors: it records all 21 outcomes for every line and never fails.
- In the code, `write` switches writers only for a `SetWriter` operation with
  more than one argument. The `#writer` regex has one group, so the switch
  never fires on parsed input (`ParsedWritable`, `DynamicIsForced`).
- The snapshot does not compile as it stands. `generate` reads
  `operation.file`, but `Operation` has no such field. `main` calls `parse`
  with two arguments, but `parse` takes one.

The model adds the `file` field. It assumes that `parse` fills the field with
the path it was given.

## Model

| member | source | states |
|---|---|---|
| Operations.Display | src/operation.rs:148-175 | every kind's log name is at least three characters, all capital letters or spaces |
| Operations.KindNamed | src/operation.rs:148-175 | the reading direction of `Display`: the kind each log name stands for (definition; `DisplayNamed` relates the two) |
| Operations.DisplayNamed | src/operation.rs:148-175 | every kind's log name reads back as that kind |
| Operations.DisplayInjective | src/operation.rs:148-175 | two kinds have the same log name exactly when they are the same kind |
| Operations.ToString | src/operation.rs:30-34 | the text starts with `(`, the kind's name and `, `, ends with `)`, and contains every argument |
| Operations.Index | src/operation.rs:36-42 | callers must index below the argument count, and the result is one of the arguments |
| Whitespace.TrimStart | src/operation.rs:81 | the result is a suffix of the input, everything removed is whitespace, and the result does not start with whitespace |
| Whitespace.TrimEnd | src/operation.rs:82 | the result is a prefix of the input, everything removed is whitespace, and the result does not end with whitespace |
| Whitespace.Collapse | src/operation.rs:83 | the result is empty exactly when the input is, keeps whether each end is whitespace, and never has whitespace other than a single space |
| Whitespace.Normalise | src/operation.rs:81-83 | the normalised line has no whitespace at either end, and its only whitespace is single spaces, never two in a row |
| Whitespace.Word | src/operation.rs:83 | the longest prefix of a text holding no whitespace: it has none, and the next character, if any, is whitespace |
| Whitespace.Words | src/operation.rs:83 | the maximal whitespace-free runs of a text, left to right; each is non-empty and holds no whitespace |
| Whitespace.CollapseWord | src/operation.rs:83 | a whitespace-free prefix passes through the collapse unchanged |
| Whitespace.WordsTrimStart | src/operation.rs:81 | dropping the leading whitespace run keeps the words |
| Whitespace.WordsTrimEnd | src/operation.rs:82 | dropping the trailing whitespace run keeps the words |
| Whitespace.CollapseWords | src/operation.rs:83 | on a text with no leading whitespace, the collapse is the words joined by single spaces, plus one space when the text ends in whitespace |
| Whitespace.NormaliseWords | src/operation.rs:81-83 | the normalised line is exactly the line's words, in order, joined by single spaces: each whitespace run between two words becomes one space and the runs at either end go |
| Whitespace.NormaliseBetweenWords | src/operation.rs:81-83 | two words separated by any non-empty whitespace run normalise to the two words with exactly one space between them |
| Whitespace.NormalHasNoNewline | src/operation.rs:81-83 | a normalised line contains no line feed |
| Whitespace.NormaliseNormal | src/operation.rs:81-83 | normalisation leaves an already normal line unchanged |
| Whitespace.NormaliseIdempotent | src/operation.rs:81-83 | normalising twice is the same as normalising once |
| Whitespace.NormaliseVisible | src/operation.rs:81-83 | normalisation keeps every non-whitespace character, in order |
| Rules.RuleAt | src/operation.rs:51-71 | the rule table: rule k is the kind and regex of line 51 + k (definition; `RuleArity` states its arities) |
| Rules.Matches | src/operation.rs:84 | `re.is_match`: the line has no line feed, and it equals the literal or splits into the regex's shape with non-empty groups (definition, the reference for `Captures`) |
| Rules.Captures | src/operation.rs:85 | `re.captures` without group 0: the groups, left to right, or nothing (definition; `CapturesAgree` ties it to `Matches`) |
| Rules.ExactCaptures | src/operation.rs:61-63 | an exact rule (`#text`, `#data`, `#udata`, line 54's `func end`) matches only its literal and captures nothing |
| Rules.PrefixCaptures | src/operation.rs:64-66 | a literal-prefix rule matches exactly the prefix followed by a non-empty rest without line feeds, and captures that rest |
| Rules.InfixCaptures | src/operation.rs:57-60 | an infix rule (assignments, compound assignments, `read`/`write … into`) matches exactly its split shapes, and its left group is the longest split, as the regex's greedy leftmost-first choice |
| Rules.LastSep | src/operation.rs:52 | the separator search finds the last position in range where the separator occurs, or reports that there is none |
| Rules.TypedInitCaptures | src/operation.rs:69 | `variable (.+): ([bwdq]) set to (.+)` matches exactly the lines of that form and captures the longest name, the type letter and the value |
| Rules.TypedUninitCaptures | src/operation.rs:70 | `variable (.+): ([bwdq])` matches exactly the lines of that form and captures the name and the type letter |
| Rules.CapturesAgree | src/operation.rs:51-71 | for every regex shape, the matcher finds groups exactly when the regex matches, and as many as the regex has |
| Rules.RuleArity | src/operation.rs:51-71 | no rule yields kind `None`, and each regex has as many groups as its kind's arity: 0 for the exact rules, 1 for the prefix rules, 2 for the infix and uninitialised-variable rules, 3 for `variable … set to` |
| Parser.CheckResult | src/operation.rs:80-94 | what `check` returns: the rule's kind, the groups, the normalised line, the line number and file when the regex matches, nothing otherwise (definition; `CheckCases` states its cases) |
| Parser.Check | src/operation.rs:80-94 | `check` with its argument-copying loop returns `CheckResult` |
| Parser.CheckCases | src/operation.rs:84-93 | `check` returns an operation exactly when the regex matches the normalised line, with the rule's kind, the normalised line as `orig`, the given line number and one argument per group |
| Parser.IndexedGroups | src/operation.rs:87-89 | argument `i` of a successful check is capture group `i + 1` |
| Parser.NoneOp | src/operation.rs:51-71 | the `unwrap_or_else` fallback: kind `None`, no arguments, the raw line, its number and file (definition) |
| Parser.Slot | src/operation.rs:51-71 | what one `ops.push` stores: rule k's check result, or the fallback (definition; `SlotCases` and `SlotArity` state its cases) |
| Parser.LineOps | src/operation.rs:51-71 | every line yields exactly 21 operations |
| Parser.CheckLine | src/operation.rs:51-71 | the 21 pushes for one line produce the rule-table outcomes in order |
| Parser.SlotCases | src/operation.rs:51-71 | a slot carries the line number and file; it is `None` exactly when its rule does not match, is then the raw line with no arguments, and is otherwise the rule's check result |
| Parser.SlotArity | src/operation.rs:51-71 | every slot has as many arguments as its kind's arity |
| Parser.Parse | src/operation.rs:44-78 | `parse`, with both loops, returns `Parsed(text, file)`, of length 21 times the number of lines |
| Parser.ParsedLength | src/operation.rs:48-71 | the operations for n lines number 21·n |
| Parser.ParsedAt | src/operation.rs:50-71 | operations 21·i to 21·i + 20 are the 21 slots of line i, numbered `first + i` |
| Parser.ParsedSlot | src/operation.rs:50-71 | operation j lies on line j div 21, is rule j mod 21's slot for that line, and carries that line's number |
| Parser.ParsedShape | src/operation.rs:48-71 | text with c line feeds has c + 1 lines; the parse has 21 operations per line, operation j is rule j mod 21 applied to line j div 21, and it carries line number j div 21 + 1 |
| Parser.ParsedArity | src/operation.rs:51-71 | every parsed operation has as many arguments as its kind's arity |
| Parser.ParsedSetWriterHasOneArg | src/operation.rs:51 | every `SetWriter` operation of a parse has exactly one argument |
| Parser.InitialisedVariableExample | src/operation.rs:69-70 | `variable counter: d set to 0` checks as `DefineVariable` with arguments `counter`, `d`, `0`, and the uninitialised rule does not match it |
| Parser.UninitialisedVariableExample | src/operation.rs:69-70 | `variable counter: d` checks as `DefineUninitVariable` with arguments `counter`, `d`, and the initialised rule does not match it |
| Text.SplitCount | src/operation.rs:48 | splitting on a character gives one more piece than the text has occurrences of it |
| Text.JoinSplit | src/intel_asm_writer.rs:49 | joining the pieces of a split with the separator gives the text back |
| Text.SplitJoin | src/intel_asm_writer.rs:49 | splitting a join of pieces free of the separator gives the pieces back |
| Text.DecimalRoundTrip | src/intel_asm_writer.rs:52 | a line number's decimal form is non-empty digits with no leading zero, and reads back as the number |
| Text.PadRightSpaces | src/intel_asm_writer.rs:52 | `{:<w}` appends spaces up to width w and never truncates |
| Text.PadLeftSpaces | src/intel_asm_writer.rs:52 | `{:>w}` prepends spaces up to width w and never truncates |
| IntelAsmWriter.Template | src/intel_asm_writer.rs:9-30 | the `match` of `generate`: the assembly text of each kind, built from its arguments (definition; `TemplateEmpty`, `ArityCovered` and the operand rows state its properties) |
| IntelAsmWriter.TraceBody | src/intel_asm_writer.rs:52 | one output line without its line feed, the piece padded to 60 columns and the trailer (definition; `TraceLayout`, `TraceContains` and `TraceBodyNoNewline` state its properties) |
| IntelAsmWriter.Rendered | src/intel_asm_writer.rs:48-54 | what `generate` returns: nothing for an empty template, else one decorated line per line-feed-separated piece (definition; `Generate`, `RenderedLines` and `RenderedTraceable` state its properties) |
| IntelAsmWriter.Generate | src/intel_asm_writer.rs:8-56 | `generate`, with its decoration loop, returns `Rendered(o)`; the output is empty exactly for `SetWriter` and `None`, and otherwise ends with a line feed |
| IntelAsmWriter.TemplateEmpty | src/intel_asm_writer.rs:23 | only `SetWriter` and `None` have an empty template |
| IntelAsmWriter.ArityCovered | src/intel_asm_writer.rs:10-30 | each template reads no argument beyond its kind's capture arity, so `generate` cannot panic on what `check` produces; only `SetWriter` reads fewer |
| IntelAsmWriter.BinaryOperands | src/intel_asm_writer.rs:10-18 | `mov`, `add`, `sub`, `mul` and `div` take `args[0]` then `args[1]` |
| IntelAsmWriter.ReadOperands | src/intel_asm_writer.rs:26 | a read from memory is `mov args[1], [args[0]]` |
| IntelAsmWriter.WriteOperands | src/intel_asm_writer.rs:27 | a write to memory is `mov [args[1]], args[0]` |
| IntelAsmWriter.UnaryOperands | src/intel_asm_writer.rs:12-30 | an interrupt is `int <code>h`, a pop is `pop <arg>`, and a function end is `ret` |
| IntelAsmWriter.ExitProcessPieces | src/intel_asm_writer.rs:22 | the exit template splits into three pieces: load 60, load the code, trap |
| IntelAsmWriter.StartFunctionPieces | src/intel_asm_writer.rs:13 | the start-function template splits into two pieces: the `global _start` export and the jump |
| IntelAsmWriter.SingleLineTemplates | src/intel_asm_writer.rs:10-30 | every other non-empty template is one piece when the arguments have no line feeds |
| IntelAsmWriter.TraceLayout | src/intel_asm_writer.rs:52 | an output line is the whole piece, spaces up to column 60, ` ; [`, the line number right-aligned in three columns, ` / `, the file, `] `, `orig` and a line feed |
| IntelAsmWriter.TraceContains | src/intel_asm_writer.rs:52 | every output line contains the decimal line number, the file and `orig` |
| IntelAsmWriter.TraceBodyNoNewline | src/intel_asm_writer.rs:52 | the trailer adds no line feed of its own |
| IntelAsmWriter.Bodies | src/intel_asm_writer.rs:51-53 | there is one output line per piece |
| IntelAsmWriter.Decorate | src/intel_asm_writer.rs:51-53 | the loop over the pieces appends each piece's decorated line, in order, and nothing else |
| IntelAsmWriter.DecoratedEnds | src/intel_asm_writer.rs:51-53 | decorated output for at least one piece ends with a line feed |
| IntelAsmWriter.DecoratedLines | src/intel_asm_writer.rs:49-53 | splitting the decorated output on line feeds gives the decorated pieces in order and then an empty tail |
| IntelAsmWriter.DecoratedSplit | src/intel_asm_writer.rs:49-53 | decorating the pieces of any text gives as many line feeds as pieces, and splits back into the decorated pieces followed by an empty tail |
| IntelAsmWriter.RenderedLines | src/intel_asm_writer.rs:49-53 | a non-empty template yields exactly one line-feed-terminated line per piece, in order |
| IntelAsmWriter.BodiesTraceable | src/intel_asm_writer.rs:52 | every decorated piece names the line number, the file and `orig` |
| IntelAsmWriter.RenderedTraceable | src/intel_asm_writer.rs:48-54 | every line `generate` emits names the line number, the file and `orig` |
| IntelAsmWriter.ExitProcessLines | src/intel_asm_writer.rs:22 | an exit operation yields three lines |
| IntelAsmWriter.StartFunctionLines | src/intel_asm_writer.rs:13 | a start-function operation yields two lines |
| Writer.OutputTypeOf | src/main.rs:31-35 | the selector forces the Intel writer exactly when it is `intel_asm` |
| Writer.Selected | src/operation.rs:108-111 | a name selects the Intel writer exactly when it is `intel_asm` |
| Writer.NextWriter | src/operation.rs:107-111 | the current writer after one operation: the one its first argument selects when it is a switch, else unchanged (definition; `WriterKept` and `WriterAfterSwitch` state its effect) |
| Writer.Plan | src/operation.rs:105-117 | there is one writer per operation |
| Writer.Written | src/operation.rs:105-118 | what `write` puts in its file: each operation's buffer from its planned writer, in order (definition; `OutputAppend`, `ForcedIntel`, `DynamicIsForced` and `Silenced` state its properties) |
| Writer.Write | src/operation.rs:103-121 | `write`, with its mutable current writer, outputs `Written(ops, mode)`; it requires only that the operations routed to the Intel writer have the arguments their templates read |
| Writer.WriterAfterAppend | src/operation.rs:106-113 | the current writer after two runs is that of the second, started from where the first left it |
| Writer.PlanAt | src/operation.rs:106-117 | operation i is generated by the writer current once i itself has been seen, or by the Intel writer when that is forced |
| Writer.PlanAppend | src/operation.rs:106-117 | the writers for two runs are those of the first, followed by those of the second started from the writer the first left behind |
| Writer.OutputAppend | src/operation.rs:106-118 | the output of two runs is the output of the first followed by that of the second |
| Writer.OutputSnoc | src/operation.rs:118 | each operation appends exactly its buffer to the output |
| Writer.OutputDiscarded | src/operation.rs:110 | operations given to the empty-output writer contribute nothing |
| Writer.ForcedPlan | src/operation.rs:114-115 | with output type `IntelAsm`, the Intel writer generates every operation whatever the current writer is |
| Writer.OutputAllIntel | src/operation.rs:114-118 | an all-Intel run outputs every operation's `generate` output, in order |
| Writer.ForcedIntel | src/operation.rs:114-118 | forced `IntelAsm` mode is safe exactly when every operation is generable, and then writes every operation's `generate` output, in order |
| Writer.WriterKept | src/operation.rs:107 | the current writer changes only at a `SetWriter` operation with more than one argument |
| Writer.WriterAfterSwitch | src/operation.rs:107-111 | the current writer after a run is the one named by its last switching operation |
| Writer.NoSwitchPlan | src/operation.rs:114-117 | without a switching operation, the dynamic writer is the start writer throughout |
| Writer.DynamicIsForced | src/operation.rs:105-117 | without a switching operation, dynamic mode writes exactly what forced `IntelAsm` mode writes |
| Writer.DiscardPlan | src/operation.rs:110 | once the empty-output writer is current, it stays current until a switch names `intel_asm` |
| Writer.Silenced | src/operation.rs:107-118 | after a switch to a name other than `intel_asm`, and until a switch back, dynamic mode writes nothing more |
| Writer.SlotGenerable | src/intel_asm_writer.rs:10-30 | every operation `parse` pushes can be generated without a panic |
| Writer.ParsedFromGenerable | src/operation.rs:51-71 | every operation of a parse can be generated |
| Writer.ParsedWritable | src/operation.rs:51 | no parsed operation switches the writer, and each can be generated, so `write` never panics on a parse, and `DynamicIsForced` applies |
| Writer.InitialisedVariableGenerate | src/intel_asm_writer.rs:28 | the operation made of `variable counter: d set to 0` becomes `counter: dd 0` |
| Writer.UninitialisedVariableGenerate | src/intel_asm_writer.rs:29 | the operation made of `variable counter: d` becomes `counter: resd 1` |

## Left out

- File I/O: `parse` takes the file's contents and its path, not a path to open. `write` returns the concatenated buffers instead of creating, writing and flushing `test.asm`. A failed open or read, which panics through `unwrap`, is not modelled.
- Logging: the `println!` calls in `check` and `write`, and everything `main` logs, are not modelled.
- The regex crate is not modelled as an engine. The 21 fixed patterns are hand-written matchers, each proved against a declarative statement of what the pattern accepts. `\s` is the Unicode `White_Space` set, and `.` excludes only the line feed.
- The `ReadFromMemoryRange` arm of `generate` is left out. `ReadFromMemoryRange` is not a variant of `OperationType`, so the arm cannot be reached, and it draws its label from a random number generator.
- `src/main.rs` is left out (argument handling, logger setup, exit codes, the call of `write`), except for the selector mapping that `OutputTypeOf` models.
- Bytes: `generate` returns the UTF-8 bytes of its text, while the model works on `string` (sequences of characters). No encoding is modelled.
- `usize` line numbers are unbounded `nat`s, because overflow would need more than 2^64 lines.
- `Box` wrapping and the final copy loop of `parse` are plain copies. The loop is kept and proved to copy, and the model's copy keeps `file`.
- The 21 `ops.push` statements of `parse` are modelled by `CheckLine` as a loop over the rule table.
- The `matches!` macro is inlined as the `SetWriter` test.
- Operations.Index: the contract is weaker than the source's promise. It says the result is one of the arguments, not which position it came from, because stating the position would only repeat the body. `Parser.IndexedGroups` states the position for checked operations. An index at or past the argument count panics in the source (`self.args[index]`, src/operation.rs:40); the model requires `i < |o.args|` instead.
- Writer.Write: a panic inside `generate` (an Intel-routed operation with too few arguments) is excluded by the precondition `Safe`, not modelled as an outcome.
