/**
 * Properties of the interpreter model: what cleaning keeps, the uniqueness and symmetry of
 * bracket partners, the invariants every run keeps, the step ceiling, and the effect of
 * the input/output instructions.
 */
module InterpreterProps {
  import opened Basics
  import opened Interpreter

  // ---------------------------------------------------------------------------
  // Cleaning

  /** Cleaning distributes over concatenation, so it filters character by character, in order. */
  lemma {:induction false} CleanAppend(a: string, b: string)
    ensures CleanProgram(a + b) == CleanProgram(a) + CleanProgram(b)
  {
    if a == [] {
      assert a + b == b;
    } else {
      assert (a + b)[1..] == a[1..] + b;
      CleanAppend(a[1..], b);
    }
  }

  /** Each command character survives cleaning as often as it occurs; every other character is gone. */
  lemma {:induction false} CleanCounts(s: string, c: char)
    ensures Count(CleanProgram(s), c) == if IsCommand(c) then Count(s, c) else 0
  {
    if s != [] {
      var head := if IsCommand(s[0]) then [s[0]] else [];
      CountAppend(head, CleanProgram(s[1..]), c);
      CleanCounts(s[1..], c);
    }
  }

  /** A program made of commands only is left as it is. */
  lemma {:induction false} CleanKeepsCommands(s: string)
    requires forall k :: 0 <= k < |s| ==> IsCommand(s[k])
    ensures CleanProgram(s) == s
  {
    if s != [] {
      CleanKeepsCommands(s[1..]);
    }
  }

  lemma CleanIdempotent(s: string)
    ensures CleanProgram(CleanProgram(s)) == CleanProgram(s)
  {
    CleanKeepsCommands(CleanProgram(s));
  }

  // ---------------------------------------------------------------------------
  // Bracket partners

  /** The depth after one more instruction, stated for any position so it can be used anywhere. */
  lemma DepthStep(code: string, j: int)
    ensures 0 <= j < |code| ==> Depth(code, j + 1) == Depth(code, j) + Delta(code[j])
  {
  }

  /** A `[` has at most one partner, and so has a `]`. */
  lemma MatchUnique(code: string, p1: int, q1: int, p2: int, q2: int)
    requires Matches(code, p1, q1) && Matches(code, p2, q2)
    ensures p1 == p2 ==> q1 == q2
    ensures q1 == q2 ==> p1 == p2
  {
    DepthStep(code, q1);
    DepthStep(code, q2);
    DepthStep(code, p1);
    DepthStep(code, p2);
  }

  /**
   * A complete jump map is an involution on the brackets: the partner of a `[` is a later `]`
   * whose partner is that `[`, and the other way round.
   */
  lemma JumpSymmetry(code: string, jumps: map<int, int>, p: int)
    requires LinkedAll(code, jumps)
    requires 0 <= p < |code| && IsBracket(code[p])
    ensures p in jumps && 0 <= jumps[p] < |code| && jumps[p] in jumps && jumps[jumps[p]] == p
    ensures code[p] == '[' ==> p < jumps[p] && code[jumps[p]] == ']'
    ensures code[p] == ']' ==> jumps[p] < p && code[jumps[p]] == '['
  {
    var q := jumps[p];
    if code[p] == '[' {
      MatchUnique(code, p, q, jumps[q], q);
    } else {
      MatchUnique(code, q, p, q, jumps[q]);
    }
  }

  /** The position reported for a stray `]` is a close no `[` can be the partner of. */
  lemma StrayCloseUnmatched(code: string, p: int, open: int)
    requires FirstUnmatchedClose(code, p)
    ensures !Matches(code, open, p)
  {
    DepthStep(code, open);
  }

  /** Every position reported as an unclosed `[` has no partner anywhere in the program. */
  lemma UnclosedOpensUnmatched(code: string, ps: seq<nat>, k: int, close: int)
    requires UnclosedOpens(code, ps) && 0 <= k < |ps|
    ensures code[ps[k]] == '[' && !Matches(code, ps[k], close)
  {
    DepthStep(code, ps[k]);
    DepthStep(code, close);
  }

  /** The validation verdicts are exclusive: a program that fails validation is not well bracketed. */
  lemma FailureExcludesBalance(code: string, e: Error)
    requires ValidationFailure(code, e)
    ensures !WellBracketed(code)
  {
    match e
    case UnmatchedClose(p) =>
    case UnmatchedOpen(ps) =>
      assert Depth(code, |code|) == |ps| > 0;
  }

  /** Code without brackets, such as the generator's, always validates. */
  lemma {:induction false} NoBracketsDepth(code: string, j: nat)
    requires j <= |code| && forall k :: 0 <= k < |code| ==> !IsBracket(code[k])
    ensures Depth(code, j) == 0
  {
    if j > 0 {
      NoBracketsDepth(code, j - 1);
    }
  }

  lemma NoBracketsWellBracketed(code: string)
    requires forall k :: 0 <= k < |code| ==> !IsBracket(code[k])
    ensures WellBracketed(code)
  {
    forall j | 0 <= j <= |code|
      ensures Depth(code, j) >= 0
    {
      NoBracketsDepth(code, j);
    }
    NoBracketsDepth(code, |code|);
  }

  // ---------------------------------------------------------------------------
  // Effects of single instructions

  /** `.` writes the cell as a character and touches nothing else. */
  lemma WriteEffect(eof: EofBehavior, memory: seq<int>, pointer: int, input: seq<int>, output: string)
    requires 0 <= pointer < |memory| && 0 <= memory[pointer] < 256
    ensures HandleIoSpec(eof, '.', memory, pointer, input, output) ==
              Io(memory, input, output + [memory[pointer] as char])
  {
  }

  /**
   * `,` consumes one item when there is one and never stores it; at end of input the cell is
   * kept under `LeaveUnchanged` and otherwise set to the absolute value of the policy: 1 for
   * `SetToZero`, 2 for `SetToMinusOne`.
   */
  lemma ReadEffect(eof: EofBehavior, memory: seq<int>, pointer: int, input: seq<int>, output: string)
    requires 0 <= pointer < |memory| && 0 <= memory[pointer] < 256
    ensures var r := HandleIoSpec(eof, ',', memory, pointer, input, output);
            r.output == output &&
            (input != [] ==> r.memory == memory && r.input == input[1..]) &&
            (input == [] && eof == LeaveUnchanged ==> r.memory == memory && r.input == []) &&
            (input == [] && eof == SetToZero ==> r.memory == memory[pointer := 1] && r.input == []) &&
            (input == [] && eof == SetToMinusOne ==> r.memory == memory[pointer := 2] && r.input == [])
  {
  }

  /** One iteration appends at most one character and consumes at most one input item. */
  lemma StepStreams(m: Machine, c: Config)
    requires m.Valid() && ValidConfig(m, c) && c.pc < |m.code|
    ensures var r := Step(m, c);
            c.output <= r.output && |r.output| <= |c.output| + 1 &&
            (r.input == c.input || (c.input != [] && r.input == c.input[1..]))
  {
  }

  /** `[` on a zero cell and `]` on a non-zero cell continue after the partner bracket. */
  lemma StepJumps(m: Machine, c: Config)
    requires m.Valid() && ValidConfig(m, c) && c.pc < |m.code|
    requires (m.code[c.pc] == '[' && c.memory[c.pointer] == 0) || (m.code[c.pc] == ']' && c.memory[c.pointer] != 0)
    ensures Step(m, c) == c.(pc := m.jumps[c.pc] + 1, steps := c.steps + 1)
  {
  }

  /** Iterations do not look at the ceiling: only `Run` does. */
  lemma StepIgnoresLimit(m: Machine, c: Config, limit: Option<int>)
    requires m.Valid() && ValidConfig(m, c) && c.pc < |m.code|
    ensures Step(m.(maxSteps := limit), c) == Step(m, c)
  {
  }

  // ---------------------------------------------------------------------------
  // Runs

  /**
   * What every run keeps: a valid configuration with the same tape length, a step count that
   * grew by the iterations taken, and the reason the run stopped.
   */
  lemma {:induction false} RunShape(m: Machine, c: Config, budget: nat)
    requires m.Valid() && ValidConfig(m, c)
    ensures var f := Run(m, c, budget).config;
            ValidConfig(m, f) && |f.memory| == |c.memory| &&
            c.steps <= f.steps <= c.steps + budget &&
            (f.steps == c.steps ==> f == c)
    ensures var r := Run(m, c, budget);
            (r.Finished? ==> r.config.pc == |m.code|) &&
            (r.LimitReached? ==> LimitHit(m.maxSteps, r.config.steps)) &&
            (r.Unfinished? ==> r.config.pc < |m.code| && r.config.steps == c.steps + budget)
    ensures Limited(m.maxSteps) && c.steps < m.maxSteps.value ==>
              match Run(m, c, budget)
              case Finished(f) => f.steps < m.maxSteps.value
              case LimitReached(f) => f.steps == m.maxSteps.value
              case Unfinished(f) => f.steps < m.maxSteps.value
    decreases budget
  {
    if c.pc < |m.code| && budget > 0 {
      var next := Step(m, c);
      if !LimitHit(m.maxSteps, next.steps) {
        RunShape(m, next, budget - 1);
      }
    }
  }

  /** The output of a run extends the output before it, and the input left is a suffix of it. */
  lemma {:induction false} RunStreams(m: Machine, c: Config, budget: nat)
    requires m.Valid() && ValidConfig(m, c)
    ensures var f := Run(m, c, budget).config;
            c.output <= f.output && |f.output| - |c.output| <= f.steps - c.steps &&
            |f.input| <= |c.input| && f.input == c.input[|c.input| - |f.input|..]
    decreases budget
  {
    if c.pc < |m.code| && budget > 0 {
      var next := Step(m, c);
      StepStreams(m, c);
      if !LimitHit(m.maxSteps, next.steps) {
        RunStreams(m, next, budget - 1);
        RunShape(m, next, budget - 1);
      }
    }
  }

  /** Under a ceiling, a budget that reaches it always suffices: the run never runs out of budget. */
  lemma {:induction false} LimitedRunEnds(m: Machine, c: Config, budget: nat)
    requires m.Valid() && ValidConfig(m, c)
    requires Limited(m.maxSteps) && c.steps < m.maxSteps.value <= c.steps + budget
    ensures !Run(m, c, budget).Unfinished?
    decreases budget
  {
    if c.pc < |m.code| {
      var next := Step(m, c);
      if !LimitHit(m.maxSteps, next.steps) {
        LimitedRunEnds(m, next, budget - 1);
      }
    }
  }

  /** A run that ended within its budget ends the same way with any larger budget. */
  lemma {:induction false} RunMoreBudget(m: Machine, c: Config, budget: nat, extra: nat)
    requires m.Valid() && ValidConfig(m, c) && !Run(m, c, budget).Unfinished?
    ensures Run(m, c, budget + extra) == Run(m, c, budget)
    decreases budget
  {
    if c.pc < |m.code| {
      var next := Step(m, c);
      if !LimitHit(m.maxSteps, next.steps) {
        RunMoreBudget(m, next, budget - 1, extra);
      }
    }
  }

  /**
   * The ceiling is checked after the step count is incremented: a program that, without a
   * ceiling, finishes after exactly `k` iterations fails when the ceiling is `k`.
   */
  lemma {:induction false} FinishingAtCeilingFails(m: Machine, c: Config, budget: nat)
    requires m.Valid() && ValidConfig(m, c) && m.maxSteps == None
    requires Run(m, c, budget).Finished? && c.steps < Run(m, c, budget).config.steps
    ensures var f := Run(m, c, budget).config;
            Run(m.(maxSteps := Some(f.steps)), c, budget) == LimitReached(f)
    decreases budget
  {
    var f := Run(m, c, budget).config;
    var m' := m.(maxSteps := Some(f.steps));
    var next := Step(m, c);
    StepIgnoresLimit(m, c, Some(f.steps));
    RunShape(m, next, budget - 1);
    if next.steps < f.steps {
      FinishingAtCeilingFails(m, next, budget - 1);
    }
  }

  // ---------------------------------------------------------------------------
  // Loops

  /** The program `[-]`, linked. */
  ghost predicate ClearLoop(m: Machine)
  {
    m.code == "[-]" && 0 in m.jumps && 2 in m.jumps && m.jumps[0] == 2 && m.jumps[2] == 0
  }

  /** Inside `[-]` with a non-zero cell `v`: `v` rounds of `-` and `]`, leaving the cell at zero. */
  lemma {:induction false} ClearLoopBody(m: Machine, c: Config, budget: nat)
    requires ClearLoop(m) && m.Valid() && ValidConfig(m, c) && c.pc == 1 && c.memory[c.pointer] > 0
    requires 2 * c.memory[c.pointer] <= budget
    requires Limited(m.maxSteps) ==> c.steps + 2 * c.memory[c.pointer] < m.maxSteps.value
    ensures Run(m, c, budget) ==
              Finished(c.(memory := c.memory[c.pointer := 0], pc := 3, steps := c.steps + 2 * c.memory[c.pointer]))
    decreases c.memory[c.pointer]
  {
    var v := c.memory[c.pointer];
    RunUnfold(m, c, budget);
    var c1 := Step(m, c);
    assert c1 == c.(memory := c.memory[c.pointer := v - 1], pc := 2, steps := c.steps + 1);
    RunUnfold(m, c1, budget - 1);
    var c2 := Step(m, c1);
    if v > 1 {
      assert c2 == c1.(pc := 1, steps := c.steps + 2);
      ClearLoopBody(m, c2, budget - 2);
      assert c2.memory[c.pointer := 0] == c.memory[c.pointer := 0];
    }
  }

  /** `[-]` runs its body once per unit of the cell, taking `1 + 2 * v` iterations to clear it. */
  lemma ClearLoopRun(m: Machine, c: Config, budget: nat)
    requires ClearLoop(m) && m.Valid() && ValidConfig(m, c) && c.pc == 0
    requires 1 + 2 * c.memory[c.pointer] <= budget
    requires Limited(m.maxSteps) ==> c.steps + 1 + 2 * c.memory[c.pointer] < m.maxSteps.value
    ensures Run(m, c, budget) ==
              Finished(c.(memory := c.memory[c.pointer := 0], pc := 3, steps := c.steps + 1 + 2 * c.memory[c.pointer]))
  {
    RunUnfold(m, c, budget);
    var c1 := Step(m, c);
    if c.memory[c.pointer] == 0 {
      assert c.memory[c.pointer := 0] == c.memory;
    } else {
      ClearLoopBody(m, c1, budget - 1);
    }
  }

  /** The program `[]`, linked. */
  ghost predicate Spin(m: Machine)
  {
    m.code == "[]" && 0 in m.jumps && 1 in m.jumps && m.jumps[0] == 1 && m.jumps[1] == 0
  }

  /** `[]` on a non-zero cell never leaves `]`: with a ceiling the run fails at exactly the ceiling. */
  lemma {:induction false} SpinHitsCeiling(m: Machine, c: Config, budget: nat)
    requires Spin(m) && m.Valid() && ValidConfig(m, c) && c.pc == 1 && c.memory[c.pointer] != 0
    requires Limited(m.maxSteps) && c.steps < m.maxSteps.value <= c.steps + budget
    ensures Run(m, c, budget) == LimitReached(c.(steps := m.maxSteps.value))
    decreases budget
  {
    RunUnfold(m, c, budget);
    if c.steps + 1 < m.maxSteps.value {
      SpinHitsCeiling(m, Step(m, c), budget - 1);
    }
  }

  /** ... and without one it runs for as long as it is allowed to. */
  lemma {:induction false} SpinForever(m: Machine, c: Config, budget: nat)
    requires Spin(m) && m.Valid() && ValidConfig(m, c) && c.pc == 1 && c.memory[c.pointer] != 0
    requires !Limited(m.maxSteps)
    ensures Run(m, c, budget) == Unfinished(c.(steps := c.steps + budget))
    decreases budget
  {
    if budget > 0 {
      RunUnfold(m, c, budget);
      SpinForever(m, Step(m, c), budget - 1);
    }
  }

  /** `+` under the ceiling 1 fails although its only instruction has run. */
  lemma SingleStepCeiling(m: Machine, c: Config, budget: nat)
    requires m.code == "+" && m.maxSteps == Some(1) && m.Valid() && ValidConfig(m, c)
    requires c.pc == 0 && c.steps == 0 && budget >= 1
    ensures Run(m, c, budget) ==
              LimitReached(c.(memory := c.memory[c.pointer := (c.memory[c.pointer] + 1) % 256], pc := 1, steps := 1))
  {
    RunUnfold(m, c, budget);
  }

  // ---------------------------------------------------------------------------
  // Straight-line code

  ghost predicate NoBracketsIn(code: string, from: int, n: nat)
  {
    forall j :: from <= j < from + n && 0 <= j < |code| ==> !IsBracket(code[j])
  }

  /** `n` iterations over bracket-free code, with no ceiling checked. */
  function Walk(m: Machine, c: Config, n: nat): (r: Config)
    requires m.Valid() && ValidConfig(m, c) && c.pc + n <= |m.code| && NoBracketsIn(m.code, c.pc, n)
    ensures ValidConfig(m, r) && |r.memory| == |c.memory|
    ensures r.pc == c.pc + n && r.steps == c.steps + n
    decreases n
  {
    if n == 0 then c else Walk(m, Step(m, c), n - 1)
  }

  /** While the ceiling is not reached, a run over bracket-free code is its walk. */
  lemma {:induction false} RunWalk(m: Machine, c: Config, n: nat, budget: nat)
    requires m.Valid() && ValidConfig(m, c) && c.pc + n <= |m.code| && NoBracketsIn(m.code, c.pc, n)
    requires n <= budget
    requires Limited(m.maxSteps) ==> c.steps + n < m.maxSteps.value
    ensures Run(m, c, budget) == Run(m, Walk(m, c, n), budget - n)
    decreases n
  {
    if n > 0 {
      RunUnfold(m, c, budget);
      RunWalk(m, Step(m, c), n - 1, budget - 1);
    }
  }

  lemma {:induction false} WalkAppend(m: Machine, c: Config, a: nat, b: nat)
    requires m.Valid() && ValidConfig(m, c) && c.pc + a + b <= |m.code| && NoBracketsIn(m.code, c.pc, a + b)
    ensures Walk(m, c, a + b) == Walk(m, Walk(m, c, a), b)
    decreases a
  {
    if a > 0 {
      WalkAppend(m, Step(m, c), a - 1, b);
    }
  }

  lemma {:induction false} MulAtLeast(d: int, n: int)
    requires n > 0 && d >= 1
    ensures d * n >= n
    decreases d
  {
    if d > 1 {
      MulAtLeast(d - 1, n);
      assert d * n == (d - 1) * n + n;
    }
  }

  /** The remainder is the only value in `[0, n)` that differs from `x` by a multiple of `n`. */
  lemma ModUnique(x: int, n: int, q: int, r: int)
    requires n > 0 && 0 <= r < n && x == q * n + r
    ensures x % n == r
  {
    var q', r' := x / n, x % n;
    assert x == q' * n + r';
    var d := q - q';
    assert d * n == r' - r by {
      assert q * n - q' * n == (q - q') * n;
    }
    if d >= 1 {
      MulAtLeast(d, n);
    } else if d <= -1 {
      MulAtLeast(-d, n);
    }
  }

  lemma ModAdd(a: int, b: int, n: int)
    requires n > 0
    ensures ((a % n) + b) % n == (a + b) % n
  {
    var y := a % n + b;
    assert a == (a / n) * n + a % n;
    assert y == (y / n) * n + y % n;
    assert a + b == (y / n + a / n) * n + y % n;
    ModUnique(a + b, n, y / n + a / n, y % n);
  }

  /** The `k` instructions from `from` are all `ch`. */
  ghost predicate RunOf(code: string, from: int, k: nat, ch: char)
  {
    forall j :: from <= j < from + k && 0 <= j < |code| ==> code[j] == ch
  }

  /** `k` copies of `>` move the pointer `k` cells right, wrapping around the tape. */
  lemma {:induction false} WalkRight(m: Machine, c: Config, k: nat)
    requires m.Valid() && ValidConfig(m, c) && c.pc + k <= |m.code| && RunOf(m.code, c.pc, k, '>')
    ensures NoBracketsIn(m.code, c.pc, k)
    ensures Walk(m, c, k) == c.(pointer := (c.pointer + k) % |c.memory|, pc := c.pc + k, steps := c.steps + k)
    decreases k
  {
    if k > 0 {
      var next := Step(m, c);
      assert next == c.(pointer := (c.pointer + 1) % |c.memory|, pc := c.pc + 1, steps := c.steps + 1);
      WalkRight(m, next, k - 1);
      ModAdd(c.pointer + 1, k - 1, |c.memory|);
    }
  }

  /** `k` copies of `<` move the pointer `k` cells left, wrapping around the tape. */
  lemma {:induction false} WalkLeft(m: Machine, c: Config, k: nat)
    requires m.Valid() && ValidConfig(m, c) && c.pc + k <= |m.code| && RunOf(m.code, c.pc, k, '<')
    ensures NoBracketsIn(m.code, c.pc, k)
    ensures Walk(m, c, k) == c.(pointer := (c.pointer - k) % |c.memory|, pc := c.pc + k, steps := c.steps + k)
    decreases k
  {
    if k > 0 {
      var next := Step(m, c);
      assert next == c.(pointer := (c.pointer - 1) % |c.memory|, pc := c.pc + 1, steps := c.steps + 1);
      WalkLeft(m, next, k - 1);
      ModAdd(c.pointer - 1, -(k - 1), |c.memory|);
    }
  }

  /** `k` copies of `+` add `k` to the cell modulo 256. */
  lemma {:induction false} WalkInc(m: Machine, c: Config, k: nat)
    requires m.Valid() && ValidConfig(m, c) && c.pc + k <= |m.code| && RunOf(m.code, c.pc, k, '+')
    ensures NoBracketsIn(m.code, c.pc, k)
    ensures Walk(m, c, k) ==
              c.(memory := c.memory[c.pointer := (c.memory[c.pointer] + k) % 256], pc := c.pc + k, steps := c.steps + k)
    decreases k
  {
    if k > 0 {
      var next := Step(m, c);
      assert next == c.(memory := c.memory[c.pointer := (c.memory[c.pointer] + 1) % 256], pc := c.pc + 1, steps := c.steps + 1);
      WalkInc(m, next, k - 1);
      ModAdd(c.memory[c.pointer] + 1, k - 1, 256);
      assert next.memory[c.pointer := (next.memory[c.pointer] + (k - 1)) % 256] ==
             c.memory[c.pointer := (c.memory[c.pointer] + k) % 256];
    }
  }

  /** `k` copies of `-` subtract `k` from the cell modulo 256. */
  lemma {:induction false} WalkDec(m: Machine, c: Config, k: nat)
    requires m.Valid() && ValidConfig(m, c) && c.pc + k <= |m.code| && RunOf(m.code, c.pc, k, '-')
    ensures NoBracketsIn(m.code, c.pc, k)
    ensures Walk(m, c, k) ==
              c.(memory := c.memory[c.pointer := (c.memory[c.pointer] - k) % 256], pc := c.pc + k, steps := c.steps + k)
    decreases k
  {
    if k > 0 {
      var next := Step(m, c);
      assert next == c.(memory := c.memory[c.pointer := (c.memory[c.pointer] - 1) % 256], pc := c.pc + 1, steps := c.steps + 1);
      WalkDec(m, next, k - 1);
      ModAdd(c.memory[c.pointer] - 1, -(k - 1), 256);
      assert next.memory[c.pointer := (next.memory[c.pointer] - (k - 1)) % 256] ==
             c.memory[c.pointer := (c.memory[c.pointer] - k) % 256];
    }
  }
}
