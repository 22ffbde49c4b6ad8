/**
 * The brainfuck execution engine of brainfuck/interpreter.py: program cleaning, bracket
 * validation and linking with an explicit stack, and the fetch-decode-execute loop over a
 * byte tape with wrapping pointer and cells, configurable end-of-input policy and a step
 * ceiling.
 *
 * The functions `Step` and `Run` are the specification of one loop iteration and of a whole
 * run; the class `BrainfuckInterpreter` holds the imperative code, proved against them.
 */
module Interpreter {
  import opened Basics

  /** End-of-input policy; each variant carries the integer value of the source enum. */
  datatype EofBehavior = LeaveUnchanged | SetToZero | SetToMinusOne
  {
    function Value(): int
    {
      match this
      case LeaveUnchanged => 0
      case SetToZero => -1
      case SetToMinusOne => -2
    }
  }

  /** Coercion of a plain integer to the policy (lookup by value); `None` where the enum lookup fails. */
  function EofFromInt(v: int): (r: Option<EofBehavior>)
    ensures r.Some? <==> (v == 0 || v == -1 || v == -2)
    ensures r.Some? ==> r.value.Value() == v
  {
    if v == 0 then Some(LeaveUnchanged)
    else if v == -1 then Some(SetToZero)
    else if v == -2 then Some(SetToMinusOne)
    else None
  }

  /** The three exceptions `execute` raises. */
  datatype Error =
    | UnmatchedClose(pos: nat)
    | UnmatchedOpen(positions: seq<nat>)
    | StepLimit(max: int)

  // ---------------------------------------------------------------------------
  // Cleaning

  predicate IsCommand(c: char)
  {
    c == '>' || c == '<' || c == '+' || c == '-' || c == '.' || c == ',' || c == '[' || c == ']'
  }

  predicate IsBracket(c: char)
  {
    c == '[' || c == ']'
  }

  /** Keeps the eight command characters, in order, and drops everything else. */
  function CleanProgram(program: string): (r: string)
    ensures |r| <= |program|
    ensures forall k :: 0 <= k < |r| ==> IsCommand(r[k])
  {
    if program == [] then []
    else (if IsCommand(program[0]) then [program[0]] else []) + CleanProgram(program[1..])
  }

  // ---------------------------------------------------------------------------
  // Reference definitions for bracket structure

  function Delta(c: char): int
  {
    if c == '[' then 1 else if c == ']' then -1 else 0
  }

  /** Nesting depth after the first `j` instructions: opens minus closes. */
  function Depth(code: string, j: nat): int
    requires j <= |code|
  {
    if j == 0 then 0 else Depth(code, j - 1) + Delta(code[j - 1])
  }

  ghost predicate NeverNegative(code: string, n: nat)
    requires n <= |code|
  {
    forall j :: 0 <= j <= n ==> Depth(code, j) >= 0
  }

  /** No prefix closes more than it opens, and the whole program closes all it opens. */
  ghost predicate WellBracketed(code: string)
  {
    NeverNegative(code, |code|) && Depth(code, |code|) == 0
  }

  /** The `[` at `p` and the `]` at `q` enclose a balanced stretch: they are partners. */
  ghost predicate Matches(code: string, p: int, q: int)
  {
    0 <= p < q < |code| && code[p] == '[' && code[q] == ']' &&
    Depth(code, q) == Depth(code, p + 1) &&
    forall j :: p < j <= q ==> Depth(code, j) >= Depth(code, p + 1)
  }

  /** The `]` at `p` is the first instruction that closes more than was opened. */
  ghost predicate FirstUnmatchedClose(code: string, p: int)
  {
    0 <= p < |code| && NeverNegative(code, p) && Depth(code, p + 1) < 0
  }

  /**
   * `ps` lists the `[`s among the first `n` instructions still open after them, in the order
   * they were opened: the k-th is the last point where the depth rose from k to k + 1.
   */
  ghost predicate Pending(code: string, n: nat, ps: seq<nat>)
    requires n <= |code|
  {
    |ps| == Depth(code, n) &&
    (forall k :: 0 <= k < |ps| ==> ps[k] < n && code[ps[k]] == '[' && Depth(code, ps[k]) == k) &&
    (forall k, j :: 0 <= k < |ps| && ps[k] < j <= n ==> Depth(code, j) >= k + 1) &&
    (forall k1, k2 :: 0 <= k1 < k2 < |ps| ==> ps[k1] < ps[k2])
  }

  /** Every close has an open, and `ps`, non-empty, are the opens never closed. */
  ghost predicate UnclosedOpens(code: string, ps: seq<nat>)
  {
    NeverNegative(code, |code|) && ps != [] && Pending(code, |code|, ps)
  }

  ghost predicate ValidationFailure(code: string, e: Error)
  {
    match e
    case UnmatchedClose(p) => FirstUnmatchedClose(code, p)
    case UnmatchedOpen(ps) => UnclosedOpens(code, ps)
    case StepLimit(_) => false
  }

  /** `jumps` sends every bracket of `code` to its partner. */
  ghost predicate LinkedAll(code: string, jumps: map<int, int>)
  {
    (forall p :: 0 <= p < |code| && code[p] == '[' ==> p in jumps && Matches(code, p, jumps[p])) &&
    (forall q :: 0 <= q < |code| && code[q] == ']' ==> q in jumps && Matches(code, jumps[q], q))
  }

  // ---------------------------------------------------------------------------
  // Functional semantics of the execution loop

  /** What one run of a cleaned, validated program is parameterised by. */
  datatype Machine = Machine(code: string, jumps: map<int, int>, eof: EofBehavior, maxSteps: Option<int>)
  {
    /** Every bracket has a jump target inside the program. */
    ghost predicate Valid()
    {
      forall p :: 0 <= p < |code| && IsBracket(code[p]) ==> p in jumps && 0 <= jumps[p] < |code|
    }
  }

  /** The execution state together with the remaining input and the output written so far. */
  datatype Config = Config(memory: seq<int>, pointer: int, pc: int, steps: nat, input: seq<int>, output: string)

  predicate AllBytes(s: seq<int>)
  {
    forall i :: 0 <= i < |s| ==> 0 <= s[i] < 256
  }

  ghost predicate ValidConfig(m: Machine, c: Config)
  {
    0 <= c.pointer < |c.memory| && AllBytes(c.memory) && 0 <= c.pc <= |m.code|
  }

  /** A ceiling is in force when `max_steps` is truthy: present and non-zero. */
  predicate Limited(maxSteps: Option<int>)
  {
    maxSteps.Some? && maxSteps.value != 0
  }

  predicate LimitHit(maxSteps: Option<int>, steps: int)
  {
    Limited(maxSteps) && steps >= maxSteps.value
  }

  datatype Io = Io(memory: seq<int>, input: seq<int>, output: string)

  /** Effect of `.` and `,` on tape, input and output. */
  function HandleIoSpec(eof: EofBehavior, cmd: char, memory: seq<int>, pointer: int, input: seq<int>, output: string): (r: Io)
    requires cmd == '.' || cmd == ','
    requires 0 <= pointer < |memory| && 0 <= memory[pointer] < 256
  {
    if cmd == '.' then Io(memory, input, output + [memory[pointer] as char])
    else if input != [] then Io(memory, input[1..], output)
    else if eof == LeaveUnchanged then Io(memory, input, output)
    else Io(memory[pointer := Abs(eof.Value())], input, output)
  }

  /** The instruction dispatch of one loop iteration, before pc and steps advance. */
  function Dispatch(m: Machine, c: Config): (r: Config)
    requires m.Valid() && ValidConfig(m, c) && c.pc < |m.code|
    ensures 0 <= r.pointer < |r.memory| == |c.memory| && AllBytes(r.memory)
    ensures 0 <= r.pc < |m.code| && r.steps == c.steps
  {
    var cmd := m.code[c.pc];
    var cell := c.memory[c.pointer];
    if cmd == '>' then c.(pointer := (c.pointer + 1) % |c.memory|)
    else if cmd == '<' then c.(pointer := (c.pointer - 1) % |c.memory|)
    else if cmd == '+' then c.(memory := c.memory[c.pointer := (cell + 1) % 256])
    else if cmd == '-' then c.(memory := c.memory[c.pointer := (cell - 1) % 256])
    else if cmd == '.' || cmd == ',' then
      var io := HandleIoSpec(m.eof, cmd, c.memory, c.pointer, c.input, c.output);
      c.(memory := io.memory, input := io.input, output := io.output)
    else if cmd == '[' && cell == 0 then c.(pc := m.jumps[c.pc])
    else if cmd == ']' && cell != 0 then c.(pc := m.jumps[c.pc])
    else c
  }

  /** One iteration of the execution loop: dispatch, then pc + 1 and steps + 1. */
  function Step(m: Machine, c: Config): (r: Config)
    requires m.Valid() && ValidConfig(m, c) && c.pc < |m.code|
    ensures ValidConfig(m, r)
    ensures |r.memory| == |c.memory| && r.steps == c.steps + 1
  {
    var d := Dispatch(m, c);
    d.(pc := d.pc + 1, steps := d.steps + 1)
  }

  datatype RunResult = Finished(config: Config) | LimitReached(config: Config) | Unfinished(config: Config)

  /**
   * The execution loop from `c`, for at most `budget` iterations: `Finished` when the program
   * counter leaves the program, `LimitReached` when the ceiling is hit after an iteration,
   * `Unfinished` when the budget runs out first.
   */
  function Run(m: Machine, c: Config, budget: nat): (r: RunResult)
    requires m.Valid() && ValidConfig(m, c)
    decreases budget
  {
    if c.pc >= |m.code| then Finished(c)
    else if budget == 0 then Unfinished(c)
    else
      var next := Step(m, c);
      if LimitHit(m.maxSteps, next.steps) then LimitReached(next)
      else Run(m, next, budget - 1)
  }

  /** One iteration of `Run`, spelled out. */
  lemma RunUnfold(m: Machine, c: Config, budget: nat)
    requires m.Valid() && ValidConfig(m, c) && c.pc < |m.code| && budget > 0
    ensures Run(m, c, budget) ==
              if LimitHit(m.maxSteps, Step(m, c).steps) then LimitReached(Step(m, c))
              else Run(m, Step(m, c), budget - 1)
  {
  }

  /** Iterations a run may take: the ceiling when one is set, otherwise the caller's fuel. */
  function Budget(maxSteps: Option<int>, fuel: nat): (b: nat)
    ensures Limited(maxSteps) ==> b >= 1 && b >= maxSteps.value
    ensures !Limited(maxSteps) ==> b == fuel
  {
    if Limited(maxSteps) then (if maxSteps.value > 0 then maxSteps.value else 1) else fuel
  }

  /** The tape: the supplied prefix, zero-filled up to `memorySize`; a longer prefix is kept whole. */
  function InitialTape(memorySize: nat, initialMemory: Option<seq<int>>): (t: seq<int>)
    ensures var prefix := if initialMemory.Some? then initialMemory.value else [];
            |t| == (if |prefix| > memorySize then |prefix| else memorySize) &&
            t[..|prefix|] == prefix &&
            forall i :: |prefix| <= i < |t| ==> t[i] == 0
  {
    var prefix := if initialMemory.Some? then initialMemory.value else [];
    prefix + Zeros(if memorySize > |prefix| then memorySize - |prefix| else 0)
  }

  lemma PendingPush(code: string, pos: nat, stack: seq<nat>)
    requires pos < |code| && code[pos] == '[' && NeverNegative(code, pos) && Pending(code, pos, stack)
    ensures NeverNegative(code, pos + 1) && Pending(code, pos + 1, stack + [pos])
  {
    var s' := stack + [pos];
    forall k, j | 0 <= k < |s'| && s'[k] < j <= pos + 1
      ensures Depth(code, j) >= k + 1
    {
      if j <= pos {
        assert s'[k] == stack[k];
      }
    }
  }

  lemma PendingPop(code: string, pos: nat, stack: seq<nat>)
    requires pos < |code| && code[pos] == ']' && stack != [] && NeverNegative(code, pos) && Pending(code, pos, stack)
    ensures NeverNegative(code, pos + 1) && Pending(code, pos + 1, stack[..|stack| - 1])
    ensures Matches(code, stack[|stack| - 1], pos)
  {
    var start := stack[|stack| - 1];
    assert Depth(code, start + 1) == |stack|;
    forall j | start < j <= pos
      ensures Depth(code, j) >= Depth(code, start + 1)
    {
    }
  }

  lemma PendingSkip(code: string, pos: nat, stack: seq<nat>)
    requires pos < |code| && !IsBracket(code[pos]) && NeverNegative(code, pos) && Pending(code, pos, stack)
    ensures NeverNegative(code, pos + 1) && Pending(code, pos + 1, stack)
  {
  }

  /** The brackets among the first `n` instructions, except the pending opens, are linked. */
  ghost predicate LinkedUpTo(code: string, n: nat, pending: seq<nat>, jumps: map<int, int>)
    requires n <= |code|
  {
    (forall p :: 0 <= p < n && code[p] == '[' && p !in pending ==> p in jumps && Matches(code, p, jumps[p])) &&
    (forall q :: 0 <= q < n && code[q] == ']' ==> q in jumps && Matches(code, jumps[q], q))
  }

  /**
   * `jumps` agrees with `prior` outside the brackets among the first `n` instructions: no entry
   * there is added or changed.
   */
  ghost predicate KeepsOthers(code: string, n: nat, jumps: map<int, int>, prior: map<int, int>)
    requires n <= |code|
  {
    (forall k :: k in jumps && !(0 <= k < n && IsBracket(code[k])) ==> k in prior && jumps[k] == prior[k])
  }

  lemma LinkPush(code: string, pos: nat, stack: seq<nat>, jumps: map<int, int>, prior: map<int, int>)
    requires pos < |code| && code[pos] == '['
    requires LinkedUpTo(code, pos, stack, jumps) && KeepsOthers(code, pos, jumps, prior)
    ensures LinkedUpTo(code, pos + 1, stack + [pos], jumps) && KeepsOthers(code, pos + 1, jumps, prior)
  {
  }

  lemma LinkSkip(code: string, pos: nat, stack: seq<nat>, jumps: map<int, int>, prior: map<int, int>)
    requires pos < |code| && !IsBracket(code[pos])
    requires LinkedUpTo(code, pos, stack, jumps) && KeepsOthers(code, pos, jumps, prior)
    ensures LinkedUpTo(code, pos + 1, stack, jumps) && KeepsOthers(code, pos + 1, jumps, prior)
  {
  }

  lemma LinkPop(code: string, pos: nat, stack: seq<nat>, jumps: map<int, int>, prior: map<int, int>)
    requires pos < |code| && code[pos] == ']' && stack != []
    requires Matches(code, stack[|stack| - 1], pos)
    requires forall k1, k2 :: 0 <= k1 < k2 < |stack| ==> stack[k1] < stack[k2]
    requires LinkedUpTo(code, pos, stack, jumps) && KeepsOthers(code, pos, jumps, prior)
    ensures var start := stack[|stack| - 1];
            var jumps' := jumps[start := pos][pos := start];
            LinkedUpTo(code, pos + 1, stack[..|stack| - 1], jumps') && KeepsOthers(code, pos + 1, jumps', prior)
  {
    var start := stack[|stack| - 1];
    var rest := stack[..|stack| - 1];
    var jumps' := jumps[start := pos][pos := start];
    assert stack == rest + [start];
    forall p | 0 <= p < pos + 1 && code[p] == '[' && p !in rest
      ensures p in jumps' && Matches(code, p, jumps'[p])
    {
      if p != start {
        assert p !in stack;
      }
    }
  }

  lemma KeepsOthersWiden(code: string, n: nat, jumps: map<int, int>, prior: map<int, int>)
    requires n <= |code| && KeepsOthers(code, n, jumps, prior)
    ensures KeepsOthers(code, |code|, jumps, prior)
  {
  }

  /** Validation that starts from an empty map leaves keys only at the brackets of `code`. */
  lemma OnlyBracketKeys(code: string, jumps: map<int, int>)
    requires KeepsOthers(code, |code|, jumps, map[])
    ensures forall k :: k in jumps ==> 0 <= k < |code| && IsBracket(code[k])
  {
  }

  lemma ScanClosedAll(code: string, jumps: map<int, int>)
    requires NeverNegative(code, |code|) && Pending(code, |code|, [])
    requires LinkedUpTo(code, |code|, [], jumps)
    ensures WellBracketed(code) && LinkedAll(code, jumps)
  {
  }

  lemma ScanLeftOpen(code: string, stack: seq<nat>)
    requires NeverNegative(code, |code|) && Pending(code, |code|, stack) && stack != []
    ensures !WellBracketed(code) && ValidationFailure(code, UnmatchedOpen(stack))
  {
  }

  lemma ScanStrayClose(code: string, pos: nat)
    requires pos < |code| && code[pos] == ']' && NeverNegative(code, pos) && Depth(code, pos) == 0
    ensures !WellBracketed(code) && ValidationFailure(code, UnmatchedClose(pos))
  {
    assert Depth(code, pos + 1) < 0;
  }

  lemma LinkedIsValid(m: Machine)
    requires LinkedAll(m.code, m.jumps)
    ensures m.Valid()
  {
  }

  // ---------------------------------------------------------------------------
  // The imperative engine

  /** Tape, pointer, program counter and step count of one run, updated in place. */
  class ExecutionState {
    var memory: array<int>
    var pointer: int
    var programCounter: int
    var steps: nat

    constructor (memory: array<int>, pointer: int, programCounter: int, steps: nat)
      ensures this.memory == memory && this.pointer == pointer
      ensures this.programCounter == programCounter && this.steps == steps
    {
      this.memory := memory;
      this.pointer := pointer;
      this.programCounter := programCounter;
      this.steps := steps;
    }
  }

  datatype Outcome = Completed(state: ExecutionState) | Failed(error: Error) | OutOfFuel

  class BrainfuckInterpreter {
    const memorySize: nat
    const eofBehavior: EofBehavior
    const maxSteps: Option<int>
    /** What the input stream has left to deliver. */
    var input: seq<int>
    /** Everything written to the output stream. */
    var output: string
    var bracketMap: map<int, int>

    constructor (memorySize: nat := 30000, eofBehavior: EofBehavior := LeaveUnchanged, maxSteps: Option<int> := Some(1_000_000),
                 input: seq<int>, output: string)
      ensures this.memorySize == memorySize && this.eofBehavior == eofBehavior && this.maxSteps == maxSteps
      ensures this.input == input && this.output == output && bracketMap == map[]
    {
      this.memorySize := memorySize;
      this.eofBehavior := eofBehavior;
      this.maxSteps := maxSteps;
      this.input := input;
      this.output := output;
      bracketMap := map[];
    }

    /** The state of a run as a value, with the streams. */
    ghost function Snapshot(s: ExecutionState): Config
      reads this, s, s.memory
    {
      Config(s.memory[..], s.pointer, s.programCounter, s.steps, input, output)
    }

    /**
     * `r` and the streams report the run `res` of the specification: a finished run as the
     * completed state, a run stopped by the ceiling as the step-limit error, and a run that used
     * up its fuel as `OutOfFuel`.
     */
    ghost predicate Reports(res: RunResult, r: Outcome)
      reads this, if r.Completed? then {r.state, r.state.memory} else {}
    {
      match res
      case Finished(c) => r.Completed? && Snapshot(r.state) == c
      case LimitReached(c) => Limited(maxSteps) && r == Failed(StepLimit(maxSteps.value)) && input == c.input && output == c.output
      case Unfinished(c) => r == OutOfFuel && input == c.input && output == c.output
    }

    method Reset()
      modifies this`bracketMap
      ensures bracketMap == map[]
    {
      bracketMap := map[];
    }

    /**
     * Checks that the brackets of `code` balance and records every pair in `bracketMap`, in
     * both directions. Entries for positions that are not brackets of `code` are left alone.
     */
    method ValidateProgram(code: string) returns (err: Option<Error>)
      modifies this`bracketMap
      ensures err.None? <==> WellBracketed(code)
      ensures err.Some? ==> ValidationFailure(code, err.value)
      ensures err.None? ==> LinkedAll(code, bracketMap)
      ensures KeepsOthers(code, |code|, bracketMap, old(bracketMap))
      ensures old(bracketMap).Keys <= bracketMap.Keys
    {
      var stack: seq<nat> := [];
      var pos := 0;
      while pos < |code|
        invariant 0 <= pos <= |code|
        invariant NeverNegative(code, pos)
        invariant Pending(code, pos, stack)
        invariant LinkedUpTo(code, pos, stack, bracketMap)
        invariant KeepsOthers(code, pos, bracketMap, old(bracketMap))
        invariant old(bracketMap).Keys <= bracketMap.Keys
      {
        var cmd := code[pos];
        if cmd == '[' {
          PendingPush(code, pos, stack);
          LinkPush(code, pos, stack, bracketMap, old(bracketMap));
          stack := stack + [pos];
        } else if cmd == ']' {
          if stack == [] {
            ScanStrayClose(code, pos);
            KeepsOthersWiden(code, pos, bracketMap, old(bracketMap));
            return Some(UnmatchedClose(pos));
          }
          PendingPop(code, pos, stack);
          LinkPop(code, pos, stack, bracketMap, old(bracketMap));
          var start := stack[|stack| - 1];
          stack := stack[..|stack| - 1];
          bracketMap := bracketMap[start := pos][pos := start];
        } else {
          PendingSkip(code, pos, stack);
          LinkSkip(code, pos, stack, bracketMap, old(bracketMap));
        }
        pos := pos + 1;
      }
      if stack != [] {
        ScanLeftOpen(code, stack);
        return Some(UnmatchedOpen(stack));
      }
      ScanClosedAll(code, bracketMap);
      return None;
    }

    /** `.` writes the current cell as a character; `,` reads one item and applies the EOF policy. */
    method HandleIo(cmd: char, memory: array<int>, pointer: int)
      requires cmd == '.' || cmd == ','
      requires 0 <= pointer < memory.Length && 0 <= memory[pointer] < 256
      modifies this`input, this`output, memory
      ensures var io := HandleIoSpec(eofBehavior, cmd, old(memory[..]), pointer, old(input), old(output));
              memory[..] == io.memory && input == io.input && output == io.output
    {
      if cmd == '.' {
        output := output + [memory[pointer] as char];
      } else if cmd == ',' {
        var read: Option<int> := None;
        if input != [] {
          read := Some(input[0]);
          input := input[1..];
        }
        if read.None? {
          if eofBehavior == LeaveUnchanged {
            return;
          }
          memory[pointer] := Abs(eofBehavior.Value());
        }
      }
    }

    /** The dispatch on the current instruction inside the execution loop. */
    method DispatchInstruction(ghost m: Machine, code: string, state: ExecutionState)
      requires m.Valid() && code == m.code && m.jumps == bracketMap && m.eof == eofBehavior
      requires ValidConfig(m, Snapshot(state)) && state.programCounter < |code|
      modifies this`input, this`output, state`pointer, state`programCounter, state.memory
      ensures Snapshot(state) == Dispatch(m, old(Snapshot(state)))
    {
      var cmd := code[state.programCounter];
      var memoryLen := state.memory.Length;
      if cmd == '>' {
        state.pointer := (state.pointer + 1) % memoryLen;
      } else if cmd == '<' {
        state.pointer := (state.pointer - 1) % memoryLen;
      } else if cmd == '+' {
        state.memory[state.pointer] := (state.memory[state.pointer] + 1) % 256;
      } else if cmd == '-' {
        state.memory[state.pointer] := (state.memory[state.pointer] - 1) % 256;
      } else if cmd == '.' || cmd == ',' {
        HandleIo(cmd, state.memory, state.pointer);
      } else if cmd == '[' && state.memory[state.pointer] == 0 {
        state.programCounter := bracketMap[state.programCounter];
      } else if cmd == ']' && state.memory[state.pointer] != 0 {
        state.programCounter := bracketMap[state.programCounter];
      }
    }

    /**
     * Cleans, validates and runs `program`. Validation failures are reported before any
     * instruction runs; otherwise the run is the one `Run` describes. `fuel` bounds the run only
     * when no ceiling is set (then the source may loop forever).
     */
    method Execute(program: string, initialMemory: Option<seq<int>> := None, initialPointer: int := 0, fuel: nat)
      returns (r: Outcome)
      requires initialMemory.Some? ==> AllBytes(initialMemory.value)
      requires 0 <= initialPointer < |InitialTape(memorySize, initialMemory)|
      modifies this
      ensures var code := CleanProgram(program);
              !WellBracketed(code) ==>
                r.Failed? && ValidationFailure(code, r.error) && input == old(input) && output == old(output)
      ensures var code := CleanProgram(program);
              WellBracketed(code) ==>
                LinkedAll(code, bracketMap) &&
                forall k :: k in bracketMap ==> 0 <= k < |code| && IsBracket(code[k])
      ensures var code := CleanProgram(program);
              var m := Machine(code, bracketMap, eofBehavior, maxSteps);
              var init := Config(InitialTape(memorySize, initialMemory), initialPointer, 0, 0, old(input), old(output));
              WellBracketed(code) ==>
                m.Valid() && ValidConfig(m, init) && Reports(Run(m, init, Budget(maxSteps, fuel)), r)
      ensures r.Completed? ==> fresh(r.state) && fresh(r.state.memory)
      ensures Limited(maxSteps) ==> !r.OutOfFuel?
    {
      Reset();
      var code := CleanProgram(program);
      var err := ValidateProgram(code);
      if err.Some? {
        return Failed(err.value);
      }
      OnlyBracketKeys(code, bracketMap);

      var tape := InitialTape(memorySize, initialMemory);
      var memory := new int[|tape|](i requires 0 <= i < |tape| => tape[i]);
      assert memory[..] == tape;
      var state := new ExecutionState(memory, initialPointer, 0, 0);

      ghost var m := Machine(code, bracketMap, eofBehavior, maxSteps);
      LinkedIsValid(m);
      ghost var init := Config(tape, initialPointer, 0, 0, old(input), old(output));
      r := ExecutionLoop(m, init, code, state, Budget(maxSteps, fuel));
    }

    /** The fetch-decode-execute loop of `execute`, from `state` until the program counter leaves the program. */
    method ExecutionLoop(ghost m: Machine, ghost init: Config, code: string, state: ExecutionState, budget: nat)
      returns (r: Outcome)
      requires m.Valid() && code == m.code && m.jumps == bracketMap && m.eof == eofBehavior && m.maxSteps == maxSteps
      requires Snapshot(state) == init && ValidConfig(m, init) && init.steps <= budget
      requires Limited(maxSteps) ==> state.steps < budget && maxSteps.value <= budget
      modifies this`input, this`output, state`pointer, state`programCounter, state`steps, state.memory
      ensures Reports(Run(m, init, budget - init.steps), r)
      ensures r.Completed? ==> r.state == state
      ensures Limited(maxSteps) ==> !r.OutOfFuel?
    {
      ghost var cur := init;
      ghost var start := init.steps;
      var programLen := |code|;
      while state.programCounter < programLen
        invariant state.memory == old(state.memory)
        invariant Snapshot(state) == cur && ValidConfig(m, cur)
        invariant start <= cur.steps <= budget
        invariant Limited(maxSteps) ==> cur.steps < budget
        invariant Run(m, init, budget - start) == Run(m, cur, budget - cur.steps)
        decreases budget - cur.steps
      {
        if state.steps == budget {
          return OutOfFuel;
        }
        DispatchInstruction(m, code, state);
        state.programCounter := state.programCounter + 1;
        state.steps := state.steps + 1;
        RunUnfold(m, cur, budget - cur.steps);
        cur := Step(m, cur);

        if maxSteps.Some? && maxSteps.value != 0 && state.steps >= maxSteps.value {
          return Failed(StepLimit(maxSteps.value));
        }
      }
      return Completed(state);
    }
  }
}
