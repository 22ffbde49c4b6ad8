# BrainfuckUtils in Dafny

A model of the two components of BrainfuckUtils, with proofs about them.

- **The interpreter** (`brainfuck/interpreter.py`). It strips every character that is not one of
  the eight commands and checks the brackets with an explicit stack. While doing so it fills a
  two-way jump map. It then runs a fetch-decode-execute loop over a byte tape, with these rules:
  - the pointer wraps around the tape;
  - cells wrap modulo 256;
  - a configurable end-of-input policy applies when `,` finds no input;
  - an optional step ceiling stops runaway programs.
- **The generator** (`brainfuck/generator.py`). For every character it picks, on a simulated
  tape, the cell that needs the fewest pointer moves plus value changes. It emits the moves, the
  changes and `.`, then updates its picture of the tape. It also has a single-cell
  `simple_generate`.

Both components are imperative, and so is the model:
- `Interpreter.BrainfuckInterpreter` and `Interpreter.ExecutionState` are classes whose fields the
  methods update in place. The tape is an `array<int>`, the jump map a `map` field, the input
  stream a `seq<int>` that `,` consumes, and the output stream a `string` that `.` appends to.
- `Generator.BrainfuckGenerator` keeps its pointer as a field and the simulated tape of `generate`
  as an array.

Every loop is proved against a functional specification:
- the interpreter loop against `Step` and `Run` (one iteration, and a run with a budget);
- validation against the depth-based definitions `WellBracketed` and `Matches`;
- `generate` against `CharCode`, `CharStep`, `GenCode` and `GenFinal`;
- `simple_generate` against `SimpleCode`.

The properties are lemmas about those functions. They are spread over these files:
- `interpreter_props.dfy`: cleaning, bracket partners, I/O effects, runs, loops and the step
  ceiling;
- `generator_props.dfy`: the commands emitted, one `.` per character, the cheapest cell,
  repeated characters, the single-cell scheme;
- `round_trip.dfy`: the code `generate` produces, run by the interpreter, prints exactly the text.

The model follows the code as written:
- **End of input.** The cell is set to the absolute value of the policy's integer. `SetToZero`
  stores 1 and `SetToMinusOne` stores 2. The constructor's docstring
  (`brainfuck/interpreter.py:60`) describes -1 as "set to 0", but line 107 stores `abs(-1)`,
  which is 1. The model follows line 107.
- **A successful read.** It consumes one item of input and never stores it.
- **Initial memory.** A prefix longer than the configured size is kept whole, so the tape grows.
  It is neither rejected nor truncated.
- **Step ceiling.** The check runs after the step count is incremented, so a program that needs
  exactly `max_steps` iterations fails.

## Model

| member | source | states |
|---|---|---|
| Interpreter.EofFromInt | brainfuck/interpreter.py:66 | Coercing an integer to the policy succeeds exactly for 0, -1 and -2 and yields the variant carrying that value. |
| Interpreter.CleanProgram | brainfuck/interpreter.py:92-95 | The cleaned program is no longer than the input and holds only the eight command characters. |
| InterpreterProps.CleanAppend | brainfuck/interpreter.py:93-95 | Cleaning distributes over concatenation, so it filters character by character and keeps the order. |
| InterpreterProps.CleanCounts | brainfuck/interpreter.py:93-95 | Each command character occurs in the cleaned program exactly as often as in the input; every other character occurs zero times. |
| InterpreterProps.CleanKeepsCommands | brainfuck/interpreter.py:93-95 | A program made only of commands is returned unchanged. |
| InterpreterProps.CleanIdempotent | brainfuck/interpreter.py:93-95 | Cleaning twice is the same as cleaning once. |
| Interpreter.BrainfuckInterpreter.Reset | brainfuck/interpreter.py:72-74 | The jump map is empty afterwards. |
| Interpreter.BrainfuckInterpreter.ValidateProgram | brainfuck/interpreter.py:76-90 | Succeeds if and only if the program is well bracketed. A failure is either the first `]` that closes more than was opened, or the non-empty list of `[`s never closed, in push order. On success every bracket is mapped to its partner. No key is removed, and no entry at a position that is not a bracket of the program is added or changed. |
| Interpreter.ScanStrayClose | brainfuck/interpreter.py:82-84 | A `]` met with an empty stack makes the program ill-bracketed, and it is the first unmatched close. |
| Interpreter.ScanLeftOpen | brainfuck/interpreter.py:89-90 | A non-empty stack at the end makes the program ill-bracketed, and lists exactly its unclosed opens. |
| Interpreter.PendingPop | brainfuck/interpreter.py:85-87 | The `[` popped for a `]` is that `]`'s partner, and the rest of the stack stays the pending opens. |
| Interpreter.LinkPop | brainfuck/interpreter.py:85-87 | Writing both directions of a popped pair keeps every bracket seen so far linked to its partner. |
| InterpreterProps.MatchUnique | brainfuck/interpreter.py:85-87 | A `[` has at most one partner `]`, and a `]` at most one partner `[`. |
| InterpreterProps.JumpSymmetry | brainfuck/interpreter.py:85-87 | After linking, each `[` maps to a later `]`, each `]` maps to an earlier `[`, and `map[map[p]] == p`. |
| InterpreterProps.StrayCloseUnmatched | brainfuck/interpreter.py:83-84 | The position reported for a stray `]` has no partner `[`. |
| InterpreterProps.UnclosedOpensUnmatched | brainfuck/interpreter.py:89-90 | Every position reported as an unclosed `[` is a `[` with no partner. |
| InterpreterProps.FailureExcludesBalance | brainfuck/interpreter.py:76-90 | A program that fails validation is not well bracketed. |
| InterpreterProps.NoBracketsWellBracketed | brainfuck/interpreter.py:76-90 | Code without brackets always validates. |
| Interpreter.ExecutionState.constructor | brainfuck/interpreter.py:26-36 | The new state holds the given memory, pointer, program counter and step count. |
| Interpreter.BrainfuckInterpreter.constructor | brainfuck/interpreter.py:47-70 | The interpreter holds the given configuration and streams, and an empty jump map. |
| Interpreter.InitialTape | brainfuck/interpreter.py:131-132 | The tape is as long as the larger of the configured size and the supplied prefix. It starts with the prefix and is zero after it. |
| Interpreter.Budget | brainfuck/interpreter.py:165 | With a truthy ceiling, the iterations allowed reach it; without one, they are the caller's fuel. |
| Interpreter.BrainfuckInterpreter.HandleIo | brainfuck/interpreter.py:97-107 | The tape and the streams after `.` or `,` are the ones the I/O specification gives. |
| Interpreter.HandleIoSpec | brainfuck/interpreter.py:97-107 | `.` appends the current cell as a character. `,` with input left drops its first item and stores nothing. `,` at end of input keeps the cell under `LeaveUnchanged`, and otherwise stores the absolute value of the policy's integer. |
| InterpreterProps.WriteEffect | brainfuck/interpreter.py:99-101 | `.` appends the current cell as a character and changes nothing else. |
| InterpreterProps.ReadEffect | brainfuck/interpreter.py:102-107 | `,` with input consumes one item and leaves the tape alone. At end of input `LeaveUnchanged` keeps the cell, `SetToZero` stores 1 and `SetToMinusOne` stores 2. The output never changes. |
| Interpreter.Dispatch | brainfuck/interpreter.py:147-160 | One dispatch keeps the pointer inside the tape, every cell a byte, the tape length and the step count, and leaves the program counter inside the program. |
| Interpreter.Step | brainfuck/interpreter.py:145-163 | One iteration keeps a valid configuration and the tape length, and adds exactly one step. |
| Interpreter.Run | brainfuck/interpreter.py:144-166 | `Finished` when the program counter has left the program. `LimitReached` when the ceiling check after the step increment fires, even after the last instruction. `Unfinished` when the budget runs out first. |
| Interpreter.BrainfuckInterpreter.DispatchInstruction | brainfuck/interpreter.py:145-160 | The in-place dispatch leaves exactly the state the dispatch specification gives. |
| Interpreter.BrainfuckInterpreter.ExecutionLoop | brainfuck/interpreter.py:141-168 | The loop ends as `Run` does from the initial state: returning the state on normal exit, failing with the ceiling when it is hit, or running out of fuel (never under a ceiling). |
| Interpreter.BrainfuckInterpreter.Execute | brainfuck/interpreter.py:109-168 | A program that fails validation reports that failure with no output and no input read. Otherwise the map links every bracket and holds no other key, and the outcome and streams are those of `Run` from the initial tape and pointer with step 0. |
| InterpreterProps.StepStreams | brainfuck/interpreter.py:155-156 | One iteration appends at most one character and consumes at most one input item. |
| InterpreterProps.StepJumps | brainfuck/interpreter.py:157-162 | `[` on a zero cell and `]` on a non-zero cell continue right after the partner bracket. |
| InterpreterProps.StepIgnoresLimit | brainfuck/interpreter.py:145-163 | An iteration does not depend on the ceiling. |
| InterpreterProps.RunShape | brainfuck/interpreter.py:144-168 | Every run keeps a valid configuration and the tape length, and the steps grow by the iterations taken. A finished run has pc equal to the program length. A run stopped by the ceiling has reached it, and one that finished stays below it. |
| InterpreterProps.RunStreams | brainfuck/interpreter.py:155-156 | A run's output extends the earlier output by at most one character per step, and the input left is a suffix of the input before. |
| InterpreterProps.LimitedRunEnds | brainfuck/interpreter.py:165-166 | Under a ceiling, a budget that reaches it never leaves the run unfinished. |
| InterpreterProps.RunMoreBudget | brainfuck/interpreter.py:144-166 | A run that ended within its budget ends the same way with any larger budget. |
| InterpreterProps.FinishingAtCeilingFails | brainfuck/interpreter.py:163-166 | A program that, without a ceiling, finishes after exactly k iterations fails when the ceiling is k. |
| InterpreterProps.SingleStepCeiling | brainfuck/interpreter.py:163-166 | `+` under the ceiling 1 fails with the cell incremented. |
| InterpreterProps.ClearLoopBody | brainfuck/interpreter.py:151-162 | Inside `[-]` with the cell at v > 0, the run takes 2v iterations and finishes with the cell at zero. |
| InterpreterProps.ClearLoopRun | brainfuck/interpreter.py:151-162 | `[-]` on a cell holding v runs its body v times and finishes after 1 + 2v iterations with the cell at zero and nothing else changed. |
| InterpreterProps.SpinHitsCeiling | brainfuck/interpreter.py:159-166 | `[]` on a non-zero cell under a ceiling fails at exactly the ceiling. |
| InterpreterProps.SpinForever | brainfuck/interpreter.py:159-163 | `[]` on a non-zero cell without a ceiling runs for as long as it is allowed to. |
| InterpreterProps.Walk | brainfuck/interpreter.py:145-163 | n iterations over bracket-free code keep a valid configuration and the tape length, and advance pc and steps by n. |
| InterpreterProps.RunWalk | brainfuck/interpreter.py:144-166 | Below the ceiling, a run over bracket-free code is the walk followed by the rest of the run. |
| InterpreterProps.WalkAppend | brainfuck/interpreter.py:144-163 | Walking a + b instructions is walking a, then b. |
| InterpreterProps.WalkRight | brainfuck/interpreter.py:147-148 | k copies of `>` move the pointer k cells right, modulo the tape length. |
| InterpreterProps.WalkLeft | brainfuck/interpreter.py:149-150 | k copies of `<` move the pointer k cells left, modulo the tape length. |
| InterpreterProps.WalkInc | brainfuck/interpreter.py:151-152 | k copies of `+` add k to the cell modulo 256. |
| InterpreterProps.WalkDec | brainfuck/interpreter.py:153-154 | k copies of `-` subtract k from the cell modulo 256. |
| Generator.BrainfuckGenerator.constructor | brainfuck/generator.py:9-17 | The generator keeps its memory size and starts with the pointer at 0. |
| Generator.BrainfuckGenerator.Reset | brainfuck/generator.py:19-21 | The pointer is 0 afterwards. |
| Generator.BestCell | brainfuck/generator.py:40-53 | The chosen cell's move-plus-change cost is no larger than any cell's, and strictly smaller than that of every lower-indexed cell, so ties go to the lowest index. |
| Generator.Cost | brainfuck/generator.py:45-49 | A cell costs nothing exactly when the pointer is on it and it already holds the target. The cost is at least the distance moved and at least the value change. |
| Generator.BestCellNext | brainfuck/generator.py:51-53 | Scanning one more cell replaces the best so far only when it is strictly cheaper. |
| Generator.BrainfuckGenerator.CheapestCell | brainfuck/generator.py:40-53 | The scan with its running minimum returns the cheapest cell with the lowest-index tie-break. |
| Generator.MoveCommands | brainfuck/generator.py:78-84 | The moves are `\|to - from\|` copies of `>` when moving right and of `<` when moving left. |
| Basics.Repeat | brainfuck/generator.py:82-93 | Python's `c * n`: exactly `n` copies of `c`. |
| Generator.ValueCommands | brainfuck/generator.py:86-93 | The changes are `\|target - current\|` copies of `+` when raising and of `-` when lowering. |
| Generator.BrainfuckGenerator.AddMoveCommands | brainfuck/generator.py:78-84 | Appends exactly the moves from the current pointer to the target cell. |
| Generator.BrainfuckGenerator.AddValueCommands | brainfuck/generator.py:86-93 | Appends exactly the changes from the current value to the target. |
| Generator.CharStep | brainfuck/generator.py:60-61 | After a character, the simulated tape keeps its length and the pointer is on one of its cells. |
| Generator.CharCode | brainfuck/generator.py:56-59 | One character's segment: the moves from the pointer to the cheapest cell, the changes from that cell's value to the code point, then `.`. |
| Generator.GenCode | brainfuck/generator.py:36-63 | The code for a text is the segments of its characters in order, each computed on the simulated tape the previous characters left. |
| Generator.GenFinal | brainfuck/generator.py:36-63 | The simulated tape after the whole text keeps its length, and a pointer that started on a cell stays on one. |
| Generator.BrainfuckGenerator.EmitChar | brainfuck/generator.py:36-61 | One character appends its segment and leaves the simulated tape and pointer as the one-character specification says. |
| Generator.BrainfuckGenerator.Generate | brainfuck/generator.py:23-63 | The code is the segments of all characters in turn, from a zeroed tape and the pointer the previous call left. The pointer ends where the last character was written. Empty text gives empty code and keeps the pointer. |
| Generator.GenAdvance | brainfuck/generator.py:36-61 | One more character moves from what is left to generate to what is generated, keeping the final simulated tape. |
| Generator.NearestCell | brainfuck/generator.py:65-76 | The cell's value is nearest to the target among the cells scanned, and strictly nearer than every lower-indexed one. |
| Generator.BrainfuckGenerator.FindBestCell | brainfuck/generator.py:65-76 | Returns the first cell, among the first `memory_size` (at least the first), whose value is nearest to the target, together with that distance. |
| Generator.BrainfuckGenerator.SimpleGenerate | brainfuck/generator.py:95-128 | The code is the single-cell scheme: empty for empty text; otherwise the move to the start cell once, then for each character the changes from the previous code point and `.`. |
| Generator.SimpleBody | brainfuck/generator.py:111-126 | For each character, the changes from the previous code point to its code point, then `.`. |
| Generator.SimpleCode | brainfuck/generator.py:107-128 | The single-cell code is empty exactly when the text is; otherwise it is the move to the start cell once, then the per-character part from 0. |
| GeneratorProps.CharCodeCommands | brainfuck/generator.py:56-59 | One character's segment uses only `><+-.`. |
| GeneratorProps.GenCommands | brainfuck/generator.py:36-63 | `generate` emits only `><+-.`. |
| GeneratorProps.MoveCommandsNoDot | brainfuck/generator.py:78-84 | Moves contain no `.`. |
| GeneratorProps.ValueCommandsNoDot | brainfuck/generator.py:86-93 | Value changes contain no `.`. |
| GeneratorProps.CharCodeOneDot | brainfuck/generator.py:56-59 | One character's segment contains exactly one `.`. |
| GeneratorProps.GenOneDotPerChar | brainfuck/generator.py:36-63 | `generate` emits exactly one `.` per character. |
| GeneratorProps.CharCodeCheapest | brainfuck/generator.py:40-59 | A segment has one command per cell moved and per unit changed, plus `.`, for the chosen cell. No cell would need fewer. |
| GeneratorProps.CharStepEffect | brainfuck/generator.py:60-61 | After a character, the chosen cell holds its code point and the pointer is on it. Every other cell is unchanged. |
| GeneratorProps.RepeatedCharOnlyDot | brainfuck/generator.py:43-61 | The same character right again emits only `.` and leaves the simulated tape as it was. |
| GeneratorProps.GenFinalHoldsLast | brainfuck/generator.py:60-61 | After `generate`, the cell under the pointer holds the last character's code point. |
| GeneratorProps.SimpleBodyOneDotPerChar | brainfuck/generator.py:121-126 | The per-character part of the single-cell scheme emits one `.` per character. |
| GeneratorProps.SimpleOneDotPerChar | brainfuck/generator.py:111-128 | `simple_generate` emits exactly one `.` per character. |
| GeneratorProps.SimpleCapitalA | brainfuck/generator.py:107-128 | `simple_generate("A", 0)` is sixty-five `+` followed by `.`. |
| RoundTrip.GeneratorCodeIsClean | brainfuck/interpreter.py:93-95 | Code made of `><+-.` survives cleaning unchanged and is well bracketed. |
| RoundTrip.CheckGenerated | brainfuck/interpreter.py:127-129 | The code `generate` produces passes cleaning unchanged and validates. |
| RoundTrip.MoveSegment | brainfuck/interpreter.py:147-150 | Running the generator's moves to a cell inside the tape puts the pointer on that cell and changes nothing else. |
| RoundTrip.ValueSegment | brainfuck/interpreter.py:151-154 | Running the generator's changes from a byte to a byte leaves the current cell at the target and changes nothing else. |
| RoundTrip.DotStep | brainfuck/interpreter.py:155-156 | Running `.` appends the current cell as a character. |
| RoundTrip.SetThenPrint | brainfuck/interpreter.py:151-156 | Changes followed by `.` set the cell to the target and print it. |
| RoundTrip.SegmentWalk | brainfuck/interpreter.py:147-156 | Moves, changes and `.` put the pointer on the chosen cell, set it to the byte, print it and read nothing. |
| RoundTrip.CharSegment | brainfuck/generator.py:56-61 | The segment for one character, run on a tape that mirrors the simulated one, prints that character. It reads nothing and leaves the tape mirroring the simulated tape after the character. |
| RoundTrip.LaidOut | brainfuck/generator.py:36-63 | The generated code, read from the start, is the segments of the characters one after another. |
| RoundTrip.FirstSegment | brainfuck/generator.py:36-61 | The first segment prints the first character and leaves the rest of the code laid out for the rest of the text. |
| RoundTrip.GenWalk | brainfuck/generator.py:36-63 | Walking the rest of the generated code appends the rest of the text to the output and reads nothing. |
| RoundTrip.GenRun | brainfuck/interpreter.py:144-166 | Below the ceiling, running the rest of the generated code finishes, having printed the rest of the text and read nothing. |
| RoundTrip.GeneratedRun | brainfuck/interpreter.py:144-166 | The whole generated code, run from a zeroed tape at least as long as the generator's, finishes having printed exactly the text. |
| RoundTrip.GenerateThenExecute | brainfuck/generator.py:23-63 | A fresh or reset generator's code for text of code points below 256, executed by an interpreter with a tape at least as long and a ceiling beyond the code length, completes. It prints exactly the text and reads nothing. |
| GeneratorProps.SimpleBodyCommands | brainfuck/generator.py:121-125 | The per-character part of the single-cell scheme uses only `+-.`, within `><+-.`. |
| GeneratorProps.SimpleCommands | brainfuck/generator.py:107-128 | `simple_generate` emits only `><+-.`. |
| RoundTrip.SimpleLaidOut | brainfuck/generator.py:111-128 | The per-character part of the single-cell code is each character's changes and `.`, one after another. |
| RoundTrip.SimpleFirst | brainfuck/generator.py:121-126 | The first character's changes and `.` print it and leave its code point in the cell, with the rest of the code next. |
| RoundTrip.SimpleWalk | brainfuck/generator.py:111-128 | Walking the per-character part, with the cell holding the previous code point, prints the text and reads nothing. |
| RoundTrip.SimpleWholeWalk | brainfuck/generator.py:115-128 | From the tape start, the move to the start cell followed by the per-character part prints the text and reads nothing. |
| RoundTrip.SimpleRun | brainfuck/generator.py:95-128 | The single-cell code, run from a zeroed tape on which the start cell lies, with a ceiling beyond its length, finishes having printed exactly the text and read nothing. |
| RoundTrip.SimpleGenerateThenExecute | brainfuck/generator.py:95-128 | `simple_generate` for text of code points below 256, executed by an interpreter whose tape reaches the start cell and whose ceiling lies beyond the code length, completes. It prints exactly the text and reads nothing. |

## Left out

- `main.py` and `brainfuck/__init__.py` are not part of this model: a demo driver and re-exports.
- The default binding to `sys.stdin`/`sys.stdout`, `TextIO` and `flush()` are left out. The input
  stream is a sequence of items that `,` consumes, and the output stream a string that `.` appends to.
- The default arguments are Dafny default parameter values: `memory_size=30000`,
  `eof_behavior=LEAVE_UNCHANGED` and `max_steps=1_000_000` on the interpreter, `initial_memory=None` and
  `initial_pointer=0` on `execute`, `memory_size=10` on the generator and `start_cell=0` on
  `simple_generate`.
- Interpreter.BrainfuckInterpreter.constructor: accepts only an `EofBehavior`. The source also
  accepts a plain integer and coerces it (`brainfuck/interpreter.py:66`). That coercion is
  `EofFromInt`, whose `None` stands for the source's `ValueError`. The constructor does not call it.
- The output character `chr(cell)` is modelled as the `char` with that code point.
- Dafny's `char` cannot hold a surrogate code point (U+D800 to U+DFFF), which a Python `str`
  can. So `generate` and `simple_generate` on text holding one have no counterpart. The interpreter
  is unaffected, since cleaning drops such characters.
- `EOFBehavior._generate_next_value_` is left out, along with the rest of the `IntEnum` machinery.
  No member uses `auto()`, so it is never called. The policy is a three-variant datatype carrying
  its integer.
- The `float('inf')` sentinel in `generate` is an `Option<int>` that starts as `None`.
- Interpreter.BrainfuckInterpreter.Execute: requires the initial pointer inside the tape, and the
  model does not cover any other pointer. In the source a pointer at or past the end fails with an
  `IndexError` at the first cell access, unless a `>` or `<` before it wraps it into range with `%`
  (`brainfuck/interpreter.py:148`, `:150`). A pointer from `-len` to `-1` indexes from the end of the tape; one below `-len`
  fails like one past the end, unless a `>` or `<` wraps it first.
- Interpreter.BrainfuckInterpreter.Execute: the same precondition excludes an empty tape, which is
  `memory_size` 0 with no prefix. The source then fails at the first `>` or `<` (a modulo by zero)
  or at the first cell access, and succeeds for a program that does neither.
- Interpreter.BrainfuckInterpreter.constructor: the size is a `nat`, so a negative `memory_size` is
  not modelled. In the source it is rejected only when there is no prefix, because `bytearray` of a
  negative number fails (`brainfuck/interpreter.py:131`). With a prefix, the zero padding of a
  negative length is empty (`:132`), so the tape is the prefix and the call succeeds.
- Interpreter.BrainfuckInterpreter.Execute: a program that never finishes without a ceiling cannot
  be a total function. Its iterations are bounded by a `fuel` parameter and the outcome is
  `OutOfFuel` when the fuel runs out. Under a ceiling the fuel is never used.
- Interpreter.BrainfuckInterpreter.Execute: the three exceptions are values of `Error` inside the
  returned `Outcome` rather than raised.
- Generator.BrainfuckGenerator.Generate: requires `memory_size >= 1` when the text is not empty.
  The source fails with an index error on the first character when the simulated tape is empty.
- Generator.BrainfuckGenerator.FindBestCell: requires the memory list to be non-empty and to
  cover `memory_size` cells. The source fails with an index error otherwise.
- The scan over cells inside `generate` is a method of its own (`CheapestCell`), and so is the
  body of the per-character loop (`EmitChar`). Together they do what the inline code does.
- RoundTrip.GenerateThenExecute: covers code points below 256 only. Larger ones cannot be held in
  a byte cell. The generator itself is modelled for any code point.
