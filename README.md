# BrainRust core, modelled in Dafny

BrainRust is a small Brainfuck toolchain written in Rust. This project models its core and proves properties of the model:

- **Parser and serialiser** (`src/command_ast.rs`). `parse_source` turns source text into a command tree (`CommandAst.Node`):
  - runs of `>`/`<` fold into one `Move`;
  - runs of `+`/`-` fold into one `Add` modulo 256;
  - loops nest;
  - unmatched brackets give `IncompleteLoop`.

  `Display` prints a tree back as canonical text.
- **Tree optimizer** (`src/optimizer.rs`). It converts the tree into the optimizer's node type. In place, it then rewrites every top-level loop whose body is a single `Add` into `Zero`.
- **Lowering** (`src/commands.rs`). `commands_from_ast` flattens a tree into a command vector. Each `LoopBegin` is pushed as a placeholder and patched once its `LoopEnd` is known.
- **Circular tape** (`src/memory.rs`). A fixed buffer of byte cells with a cursor. Cursor moves and cell arithmetic both wrap around.
- **Program cursor** (`src/program.rs`). A cursor over the source characters. Its bracket search scans forward and backward with a depth counter.
- **Character-level interpreter** (`src/interpreter.rs`). `step` executes the character under the program cursor. `run` repeats it.

## Structure

Each Rust file becomes one module. Code that updates state step by step stays imperative; pure code becomes functions and lemmas.

- `Memory.Memory` is a class. Its `data` field is an `array<u8>`; its methods update the array and `index` in place.
- `Program.Program` is a class with `chars` and `index`. `SkipLoop` and `RepeatLoop` are loops with a depth counter. Each is proved against a recursive search function (`ForwardMatch`, `BackMatch`), and the first-match properties are proved about those functions.
- `Interpreter.Interpreter` is a class holding a `Memory` and a `Program`.
  - `Step` is proved equal to `StepSpec`, a function on a `Machine` value: tape, tape cursor, program cursor and output.
  - `Run` is proved equal to `RunSpec`.
- `CommandAst.ParseSource` is the scope-stack loop of `parse_source`; its body, the match on a character, is the method `ScanChar`. It is proved equal to `Parsed`, a step relation folded over the characters. Folding, bracket checks, the bracket skeleton of the loops and the print/parse round trip are lemmas about `Parsed`.
- `Commands.CommandsFromAst` is the recursive procedure, with the caller's vector passed in and returned. It is proved to append exactly `LowerAll(ast, |commands|)`. Jump pairing and a decoder back to the tree are proved about `LowerAll`.
- `Optimizer.OptimizeAst` works in place on an `array`. `Optimize` runs it on a fresh copy of the converted tree.
- `Prelude` holds `Option`, `Result`, the `u8` type and Rust's `wrapping_add`/`wrapping_sub`. `Brackets` holds the bracket depth count shared by the parser and the cursor.

## Model

| member | source | states |
|---|---|---|
| Prelude.WrappingAdd | src/memory.rs:22 | `wrapping_add` on `u8`: the sum modulo 256, and the plain sum when it fits |
| Prelude.WrappingSub | src/command_ast.rs:27 | `wrapping_sub` on `u8`: the difference modulo 256, and the plain difference when no borrow occurs |
| Brackets.DepthConcat | src/program.rs:33-39 | the `[`-minus-`]` count of a concatenation is the sum of the counts of the parts |
| CommandAst.Last | src/command_ast.rs:23 | definition: `scope.last_mut()`: present exactly when the scope is non-empty, and then it is the final sibling |
| CommandAst.Step | src/command_ast.rs:18-41 | one character on a non-empty scope stack fails exactly on `]` at top level; otherwise `[` grows the stack by one, `]` shrinks it by one, and any other character keeps its height |
| CommandAst.ParseSource | src/command_ast.rs:14-49 | the imperative scan with its scope stack returns exactly `Parsed(source)` |
| CommandAst.ScanChar | src/command_ast.rs:23-41 | the match in `parse_source`'s loop body for one character, on the non-empty stack the loop has just checked for, computes exactly `Step`, including the `IncompleteLoop` return of a `]` at top level |
| CommandAst.RunConcat | src/command_ast.rs:17-42 | scanning `a + b` is scanning `a` and then, if that did not fail, scanning `b` |
| CommandAst.MoveRunFolds | src/command_ast.rs:24-29 | a non-empty run of `>` and `<` parses to one `Move` whose offset is the net count |
| CommandAst.AddRunFolds | src/command_ast.rs:26-31 | a non-empty run of `+` and `-` parses to one `Add` whose amount is the net count modulo 256 |
| CommandAst.RunMoves | src/command_ast.rs:24-25 | `>`/`<` after a `Move` sibling adjust that sibling's offset in place and push nothing |
| CommandAst.RunAdds | src/command_ast.rs:26-27 | `+`/`-` after an `Add` sibling adjust that sibling's amount modulo 256 and push nothing |
| CommandAst.Repeat | src/command_ast.rs:56 | definition: `str::repeat`: `n` copies of the character |
| CommandAst.Display | src/command_ast.rs:51-81 | definition: `Move(k)` prints `k` copies of `>` or `-k` copies of `<`, `Add(n)` prints `n` pluses when `n <= 128` and otherwise `256 - n` minuses, `.` and `,` print themselves, and a loop prints `[` body `]`; the text's `[`-minus-`]` count is 0 |
| CommandAst.DisplayAll | src/command_ast.rs:72-78 | definition: the nodes' texts in order; the text's `[`-minus-`]` count is 0 |
| CommandAst.DisplayAddSplit | src/command_ast.rs:63-68 | `Add(n)` prints as `n` pluses when `n <= 128`, otherwise as `256 - n` minuses, and those characters add back up to `n` |
| CommandAst.MoveNetRepeat | src/command_ast.rs:54-61 | `k` copies of `>` count `+k` and `k` copies of `<` count `-k` |
| CommandAst.RunDisplay | src/command_ast.rs:51-81 | parsing a canonical node's text pushes exactly that node onto a scope it cannot fold into |
| CommandAst.DisplayAllConcat | src/command_ast.rs:72-78 | the text of a node list is the concatenation of its nodes' texts |
| CommandAst.ParseDisplayAll | src/command_ast.rs:14-81 | round trip: a canonical tree (no zero amounts, no foldable neighbours at any level) parses from its own text back to itself |
| CommandAst.StepFolded | src/command_ast.rs:23-39 | one character keeps every scope free of adjacent `Move`/`Move` and `Add`/`Add` siblings |
| CommandAst.ParsedIsFolded | src/command_ast.rs:23-39 | every successful parse has no two adjacent `Move`s and no two adjacent `Add`s at any nesting level |
| CommandAst.RunSucceedsIff | src/command_ast.rs:34-37 | a scan succeeds exactly when no prefix closes more loops than are open, and it ends with the stack height plus the net depth |
| CommandAst.ParsedOkIffBalanced | src/command_ast.rs:34-47 | parsing succeeds exactly when the brackets are balanced; every failure is `IncompleteLoop` |
| CommandAst.Commands | src/command_ast.rs:40 | the command characters of a text, in order, and only those |
| CommandAst.ParsedIgnoresComments | src/command_ast.rs:40 | non-command characters do not affect the parse, and text without commands parses to the empty list |
| CommandAst.DisplayAllBrackets | src/command_ast.rs:72-78 | the brackets of a list's printed text are its bracket skeleton: `[` and `]` around each loop's body |
| CommandAst.StepBrackets | src/command_ast.rs:34-38 | `[` opens a scope whose skeleton starts with `[`, `]` closes the innermost scope into a loop of the one around it, and no other character changes the stack's skeleton |
| CommandAst.StepKeepsBrackets | src/command_ast.rs:23-33 | a character other than `[` and `]` always succeeds and leaves the stack's bracket skeleton unchanged |
| CommandAst.RunBrackets | src/command_ast.rs:17-42 | a successful scan extends the stack's skeleton by exactly the brackets of the text scanned |
| CommandAst.ParsedMirrorsBrackets | src/command_ast.rs:14-49 | every successful parse, for any text (comments, zero amounts and long runs included), has loops whose skeleton is the source's brackets in order, and so does its printed text |
| CommandAstExamples.ParsesCommentToEmpty | src/command_ast.rs:96 | `"test"` parses to the empty list |
| CommandAstExamples.FoldsMinusRun | src/command_ast.rs:118 | `"---"` parses to `Add(253)` |
| CommandAstExamples.FoldsMixedMoveRun | src/command_ast.rs:124 | `">>><<<<"` parses to `Move(-1)` |
| CommandAstExamples.FoldsMixedAddRun | src/command_ast.rs:130 | `"+++----"` parses to `Add(255)` |
| CommandAstExamples.FoldsShortAddRuns | src/command_ast.rs:132-133 | `"-+--"` parses to `Add(254)` and `"--++++"` to `Add(2)` |
| CommandAstExamples.ParsesSimpleLoops | src/command_ast.rs:138-149 | `"[]"`, `"[[]]"` and `"[][]"` parse to one loop, a loop in a loop, and two loops |
| CommandAstExamples.ParsesBlankLoop | src/command_ast.rs:139 | `"[ ]"` parses to one empty loop |
| CommandAstExamples.ParsesCancellingLoop | src/command_ast.rs:23-39 | `"[+-]"` parses to a loop holding `Add(0)`, a tree that is not canonical, and its skeleton is still `"[]"` |
| CommandAstExamples.ParsesCommentLoop | src/command_ast.rs:140 | `"[test]"` parses to one empty loop |
| CommandAstExamples.ParsesLoops | src/command_ast.rs:150-156 | `"[[]][]"` parses to a loop holding an empty loop, and then an empty loop |
| CommandAstExamples.RejectsUnmatched | src/command_ast.rs:35-47 | `"]"`, `"["` and `"[]]"` each give `IncompleteLoop` |
| CommandAstExamples.EmptyLoopText | src/command_ast.rs:72-78 | an empty loop prints as `"[]"` |
| CommandAstExamples.ParsesHiProgram | src/command_ast.rs:161-195 | the sample program parses to the tree the test expects |
| CommandAstExamples.HiText | src/command_ast.rs:51-81 | that tree prints back as the sample program's text |
| CommandAstExamples.HiCanonical | src/command_ast.rs:161-195 | that tree is canonical, so the round trip applies to it |
| Commands.LowerNode | src/commands.rs:16-35 | a node lowers to exactly `Size(node)` commands: 1, or 2 plus the body's size for a loop |
| Commands.LowerAll | src/commands.rs:15-36 | a list lowers to exactly the sum of its nodes' sizes |
| Commands.CommandsFromAst | src/commands.rs:14-37 | the result is the old vector, untouched, followed by the lowering of the tree starting at the old length |
| Commands.LowerLoopPatched | src/commands.rs:21-33 | placeholder, body and `LoopEnd(begin)`, with the placeholder patched to the end index, are the loop's lowering |
| Commands.PatchPlaceholder | src/commands.rs:30-31 | patching the placeholder overwrites only that entry |
| Commands.LowerAllNoZero | src/commands.rs:17-20 | lowering never produces `Zero` |
| Commands.PairedWrap | src/commands.rs:22-33 | wrapping a paired body in `LoopBegin(end)` … `LoopEnd(begin)` keeps every jump paired |
| Commands.PairedConcat | src/commands.rs:15-36 | two paired blocks placed one after the other stay paired |
| Commands.LowerAllPaired | src/commands.rs:22-33 | in a lowered block, each `LoopBegin` at `i` targets a later `LoopEnd` that targets `i`, and each `LoopEnd` an earlier `LoopBegin` that targets it |
| Commands.CommandsFromAstPaired | src/commands.rs:14-37 | appending a lowering to a paired vector leaves it paired |
| Commands.LoopSlice | src/commands.rs:22-28 | a loop's body commands occupy exactly the positions strictly between its `LoopBegin` and `LoopEnd` |
| Commands.RaiseLowerAll | src/commands.rs:14-37 | decoding the lowered vector gives back the tree, so nodes map one to one and in order |
| Optimizer.FromAst | src/optimizer.rs:31-43 | the conversion keeps the list length and converts each node in place |
| Optimizer.ToAstFromAst | src/optimizer.rs:31-43 | converting back recovers the original tree, so every variant maps to its namesake and the shape is kept |
| Optimizer.FromAstNoOffsetAdd | src/optimizer.rs:14-22 | the converted tree contains no `AddWithOffset` at any depth |
| Optimizer.IsZeroOperation | src/optimizer.rs:47-61 | true exactly for a loop whose body is one `Add` of any amount; false for empty loops, longer bodies and non-loops |
| Optimizer.ZeroLoops | src/optimizer.rs:24-28 | same length; each top-level zero operation becomes `Zero`; every other node, nested loops included, is unchanged |
| Optimizer.OptimizeAst | src/optimizer.rs:21-29 | the array afterwards holds `ZeroLoops` of its old contents |
| Optimizer.Optimize | src/optimizer.rs:14-19 | the result is `ZeroLoops` of the converted tree |
| Optimizer.ZeroLoopsIdempotent | src/optimizer.rs:24-28 | a second pass changes nothing, since `Zero` is not a loop |
| Optimizer.OptimizeResult | src/optimizer.rs:14-28 | the optimized list keeps the input's length, has the rewritten converted node at each position, and holds no `AddWithOffset` |
| Optimizer.AddRepeatedlyClosed | src/optimizer.rs:57-58 | `k` passes through the body of `[Add(n)]` leave the cell at `c + k*n` modulo 256 |
| Optimizer.OddAddClears | src/optimizer.rs:57-58 | with an odd amount, some number of passes brings any cell to zero |
| Optimizer.EvenAddNeverClears | src/optimizer.rs:57-58 | with an even amount, an odd cell never reaches zero |
| Optimizer.ZeroOperationMisfires | src/optimizer.rs:57-58 | as written, `[Add(2)]` is rewritten to `Zero`, yet from a cell holding 1 it never reaches zero |
| Optimizer.ClearingLoopIff | src/optimizer.rs:46-61 | among single-`Add` loops, the corrected test holds exactly for those that clear every starting cell |
| Optimizer.ClearingLoops | src/optimizer.rs:24-28 | the corrected pass: each clearing loop becomes `Zero`, every other node is kept |
| Optimizer.ClearingLoopsSound | src/optimizer.rs:46-61 | the corrected pass rewrites exactly the single-`Add` loops that clear every starting cell |
| Memory.Wrap | src/memory.rs:46-58 | `offset_index` lies in `[0, len)` and equals `(index + offset) mod len`, for any offset it does not underflow on |
| Memory.WrapNegative | src/memory.rs:50-56 | both negative-offset branches give `(index - offset) mod len` |
| Memory.WrapFullTurn | src/memory.rs:17-19 | moving by `len + k` lands where moving by `k` does |
| Memory.ByteChar | src/memory.rs:39 | definition: `u8 as char`: the character whose code is the byte |
| Memory.CharByte | src/memory.rs:43 | definition: `char as u8`: the code modulo 256 |
| Memory.CharByteOfByteChar | src/memory.rs:38-44 | storing the character of a cell's value gives back that value |
| Memory.Memory.constructor | src/memory.rs:10-15 | `size` cells, all zero, with the cursor at 0 |
| Memory.Memory.OffsetIndex | src/memory.rs:46-58 | the wrapped index of the cell `offset` away from the cursor |
| Memory.Memory.MoveIndex | src/memory.rs:17-19 | the cursor becomes `offset_index(offset)`; the cells are not touched |
| Memory.Memory.Next | src/interpreter.rs:40 | `move_index(1)`: the cursor advances by one with wraparound |
| Memory.Memory.Previous | src/interpreter.rs:41 | `move_index(-1)`: the cursor steps back by one with wraparound |
| Memory.Memory.Add | src/memory.rs:21-23 | only the current cell changes, to its old value plus `n` modulo 256; the cursor stays |
| Memory.Memory.Increment | src/interpreter.rs:42 | `add(1)` |
| Memory.Memory.Decrement | src/interpreter.rs:43 | `add(255)`: the cell decreases by one modulo 256 |
| Memory.Memory.AddWithOffset | src/memory.rs:25-28 | only the cell at `offset_index(offset)` changes, by `n` modulo 256; the cursor stays |
| Memory.Memory.Zero | src/memory.rs:30-32 | only the current cell changes, to 0, and `is_zero` holds afterwards |
| Memory.Memory.IsZero | src/memory.rs:34-36 | definition: true exactly when the current cell is 0 |
| Memory.Memory.GetChar | src/memory.rs:38-40 | definition: the character whose code is the current cell |
| Memory.Memory.SetChar | src/memory.rs:42-44 | only the current cell changes, and reading it back gives the character's code modulo 256 |
| Program.ForwardMatch | src/program.rs:32-48 | a forward match, when found, lies inside the text |
| Program.ForwardMatchSpec | src/program.rs:32-48 | the forward search returns the first offset where the depth from the cursor reaches 0, or nothing when there is none |
| Program.SkipFindsClosing | src/program.rs:32-48 | from a `[`, the match is a later `]`, and the text from the `[` through that `]` is balanced |
| Program.SkipStaysOnNonBracket | src/program.rs:41-44 | on a non-bracket the forward search stops at offset 0 |
| Program.BackMatchSpec | src/program.rs:50-66 | the backward search returns the nearest offset where the depth back to the cursor reaches 0, or nothing when there is none |
| Program.RepeatFindsOpening | src/program.rs:50-66 | from a `]`, the match is an earlier `[`, and the text from that `[` through the `]` is balanced |
| Program.RepeatStaysOnNonBracket | src/program.rs:59-62 | on a non-bracket the backward search stops at offset 0 |
| Program.Program.constructor | src/program.rs:13-18 | the characters of the source, with the cursor at 0 |
| Program.Program.Next | src/program.rs:20-22 | the cursor advances by one |
| Program.Program.Get | src/program.rs:24-30 | definition: nothing exactly when the cursor is past the end, otherwise the character under it |
| Program.Program.SkipLoop | src/program.rs:32-48 | on success the cursor moves forward to the first balancing position; on failure it gives `LoopTraversalError` of the cursor and stays |
| Program.Program.RepeatLoop | src/program.rs:50-66 | on success the cursor moves back to the nearest balancing position; on failure it gives `LoopTraversalError` of the cursor and stays |
| Program.Program.GetRangeClamped | src/program.rs:94-112 | empty when there are no characters, the end is negative or the start is past the last index; otherwise the characters from the clamped start through the clamped end. Its precondition holds at every call `get_window` makes (see `WindowRanges`) |
| Program.Program.WindowRanges | src/program.rs:68-82 | the three ranges `get_window` requests join up to the characters within `radius` of the cursor |
| Interpreter.StepStopsIffExhausted | src/interpreter.rs:34-37 | `step` reports the end exactly when the program is exhausted, and then changes nothing |
| Interpreter.StepFailureFromJump | src/interpreter.rs:46-55 | a failing step leaves the machine as it was and comes from a bracket whose partner is missing |
| Interpreter.StepIgnoresComment | src/interpreter.rs:56-59 | a non-command character only advances the program cursor |
| Interpreter.StepOutput | src/interpreter.rs:44 | only `.` prints; it appends the current cell's character and changes nothing else but the program cursor |
| Interpreter.StepSkipsToMatch | src/interpreter.rs:46-50 | `[` on a zero cell continues just after its matching `]`, and the skipped text is balanced |
| Interpreter.StepRepeatsFromMatch | src/interpreter.rs:51-55 | `]` on a nonzero cell continues just after its matching `[`, and the text in between is balanced |
| Interpreter.StepFallsThrough | src/interpreter.rs:46-59 | a bracket whose jump is not taken only advances the program cursor |
| Interpreter.RunOutputExtends | src/interpreter.rs:19-23 | a run only appends to the output |
| Interpreter.RunMoreFuel | src/interpreter.rs:19-23 | once a run has stopped for a reason other than fuel, more fuel changes nothing |
| Interpreter.RunHaltsAtEnd | src/interpreter.rs:19-23 | a run ends without error only at the end of the program |
| Interpreter.Interpreter.LoadProgram | src/interpreter.rs:12-17 | a zeroed tape of `memorySize` cells with cursor 0, and the program at index 0 |
| Interpreter.Interpreter.Step | src/interpreter.rs:33-62 | the result and the new fields are exactly `StepSpec` of the old ones |
| Interpreter.Interpreter.Run | src/interpreter.rs:19-23 | the outcome and the final fields are exactly `RunSpec` of the initial ones; step errors stop the run |
| InterpreterExamples.RunsIncrementPrint | src/interpreter.rs:33-62 | `+.` on one cell prints the character with code 1 and halts |
| InterpreterExamples.RunsClearingLoop | src/interpreter.rs:46-55 | `++[-]` jumps back once from `]` and halts with the cell cleared |
| InterpreterExamples.RunFailsOnUnmatchedClose | src/interpreter.rs:51-55 | `+]` fails with `LoopTraversalError(1)` |
| InterpreterExamples.EvenLoopSpins | src/interpreter.rs:46-55 | inside the loop of `+[++]`, every step succeeds, the `]` jumps back just after the `[`, and the run uses up any fuel: it never halts, fails or aborts |
| InterpreterExamples.ParsesEvenLoop | src/command_ast.rs:14-49 | `+[++]` parses to `Add(1)` followed by the loop `[Add(2)]` |
| InterpreterExamples.EvenLoopNeverHalts | src/optimizer.rs:47-61 | started on an even cell, `+[++]` runs out of any fuel without halting, while the optimizer rewrites its loop into `Zero` |

## Left out

- `src/main.rs` (command-line parsing, file reading, the REPL) and the message strings of `src/errors.rs` are not part of this model. The error variants are datatypes: `InterpreterError` in `Program`, `ParserError` in `CommandAst`. `ParserError` has the single variant `IncompleteLoop` because `src/errors.rs` does not define it.
- `get_window`'s padding and colouring, and the `Display` impls of `Program`, `Interpreter` and `Memory`, are terminal formatting. `Program.Program.WindowRanges` covers only which characters the window shows.
- `run_logged` only adds `println!` between steps and is not modelled.
- `print!` in `step` is modelled as appending to an `output` sequence. `Interpreter.Interpreter` gains an `output` field that the Rust struct does not have.
- `,` is `todo!()` in `step`. On a zero-length tape, `>` panics on `% 0` (`src/memory.rs:48`), `+`, `-`, `.`, `[` and `]` panic by indexing, and `<` panics on the `usize` subtraction `0 - 1` at `src/memory.rs:53`. That last panic happens only in a build with overflow checks (a debug build); a release build wraps it to `usize::MAX` and the step returns `Ok(true)`. The model follows debug-build semantics: `Interpreter.Interpreter.Step` requires that none of these cases arises, and `Interpreter.Interpreter.Run` stops with `Aborted(pc)` just before such a step.
- Interpreter.Interpreter.Run: takes a fuel bound and returns `OutOfFuel` when it runs out, because `run` need not terminate.
- `interpreter.rs` calls `next`, `previous`, `increment` and `decrement`, which `memory.rs` does not define. They are modelled as `move_index(1)`, `move_index(-1)`, `add(1)` and `add(255)`.
- Memory.Wrap: requires `-offset <= index + len` for negative offsets, because beyond that the `usize` subtraction at `src/memory.rs:53` underflows. The cursor operations also require a non-empty tape, because on an empty one `% len` (`src/memory.rs:48`) and indexing panic, and so does the subtraction at `src/memory.rs:53` in a build with overflow checks; the model follows debug-build semantics there.
- Program.Program.GetRangeClamped: requires that the clamped start is at most one past the clamped end. Calls that break this, such as `get_range_clamped(5, 2)` on ten characters, panic on the slice at `src/program.rs:111`, and the model does not describe them. Every call `get_window` makes meets the requirement (`Program.Program.WindowRanges`).
- Integers are unbounded. `isize` wrap-around of a `Move` offset and `usize` overflow of indices are not modelled; only the `u8` cell and `Add` arithmetic wrap, as written.
- Commands.CommandsFromAst: the `&mut Vec<Command>` is modelled as a sequence passed in and returned. The exclusive borrow rules out aliasing, so nothing else observes the vector.
- The `AddWithOffset` fusion (a TODO in `optimize_ast`) and recursive optimization of nested loops do not exist in the code and are not modelled.
- Optimizer.OptimizeAst: no semantic equivalence between a loop and `Zero` is claimed. The as-written test accepts loops that never terminate; see Findings.

## Findings

| source | as written | input that shows it | evidently intended | confidence | as-written member | corrected member |
|---|---|---|---|---|---|---|
| src/optimizer.rs:57-58 | `is_zero_operation` accepts a loop whose single body node is `Add(n)` for any `n`, so `optimize_ast` replaces it with `Zero` | `[++]`, i.e. `Loop([Add(2)])`, on a cell holding 1: the cell stays odd and the loop never ends, yet it is rewritten to `Zero` | rewrite only loops that clear every cell, such as `[-]` and `[+]` (which the comment at line 46 names): exactly the odd amounts | not executed | Optimizer.ZeroOperationMisfires | Optimizer.ClearingLoopsSound |

`InterpreterExamples.EvenLoopNeverHalts` shows the same discrepancy in the interpreter's terms: `+[++]` from an even cell never halts, whatever the fuel, while the optimizer turns its loop into `Zero`. `Optimizer.ZeroLoops`, `OptimizeAst` and `Optimize` follow the code as written. `Optimizer.ClearingLoops` is the pass with the corrected test.
