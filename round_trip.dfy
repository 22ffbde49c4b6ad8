/**
 * The round trip between the two components: code produced by the generator, run by the
 * interpreter on a zeroed tape at least as long as the generator's, prints exactly the text,
 * provided every code point fits in a cell and the ceiling (if any) lies beyond the code.
 */
module RoundTrip {
  import opened Basics
  import opened Interpreter
  import opened InterpreterProps
  import opened Generator
  import opened GeneratorProps

  /** Every code point fits in a byte cell. */
  predicate Latin1(text: string)
  {
    forall k :: 0 <= k < |text| ==> text[k] as int < 256
  }

  /** The interpreter's tape starts with the generator's simulated cells, and the pointers agree. */
  ghost predicate Mirrors(s: Sim, c: Config)
  {
    1 <= |s.memory| <= |c.memory| && c.memory[..|s.memory|] == s.memory && c.pointer == s.pointer
  }

  lemma GeneratorCharIsCommand(c: char)
    requires c in "><+-."
    ensures IsCommand(c) && !IsBracket(c)
  {
  }

  lemma GeneratorCodeIsClean(code: string)
    requires GeneratorCommands(code)
    ensures forall k :: 0 <= k < |code| ==> IsCommand(code[k]) && !IsBracket(code[k])
    ensures CleanProgram(code) == code && WellBracketed(code)
  {
    forall k | 0 <= k < |code|
      ensures IsCommand(code[k]) && !IsBracket(code[k])
    {
      GeneratorCharIsCommand(code[k]);
    }
    CleanKeepsCommands(code);
    NoBracketsWellBracketed(code);
  }

  lemma ModOfSmall(x: int, n: int)
    requires 0 <= x < n
    ensures x % n == x
  {
    ModUnique(x, n, 0, x);
  }

  /** `code` holds `piece` from position `from` on. */
  ghost predicate Spells(code: string, from: int, piece: string)
  {
    0 <= from && from + |piece| <= |code| && forall i :: 0 <= i < |piece| ==> code[from + i] == piece[i]
  }

  lemma SpellsSplit(code: string, from: int, a: string, b: string)
    requires Spells(code, from, a + b)
    ensures Spells(code, from, a) && Spells(code, from + |a|, b)
  {
    forall i | 0 <= i < |a|
      ensures code[from + i] == a[i]
    {
      assert (a + b)[i] == a[i];
    }
    forall i | 0 <= i < |b|
      ensures code[from + |a| + i] == b[i]
    {
      assert (a + b)[|a| + i] == b[i];
    }
  }

  /** Code spelling a piece made of one character holds a run of that character. */
  lemma SpelledRun(code: string, from: int, piece: string, ch: char)
    requires Spells(code, from, piece) && forall k :: 0 <= k < |piece| ==> piece[k] == ch
    ensures RunOf(code, from, |piece|, ch)
  {
    forall j | from <= j < from + |piece| && 0 <= j < |code|
      ensures code[j] == ch
    {
      assert code[from + (j - from)] == piece[j - from];
    }
  }

  /** `to - pointer` copies of `>` bring the pointer up to `to`. */
  lemma MoveRightSegment(m: Machine, c: Config, to: int)
    requires m.Valid() && ValidConfig(m, c) && c.pointer < to < |c.memory|
    requires Spells(m.code, c.pc, MoveCommands(c.pointer, to))
    ensures var n := to - c.pointer;
            NoBracketsIn(m.code, c.pc, n) && Walk(m, c, n) == c.(pointer := to, pc := c.pc + n, steps := c.steps + n)
  {
    var n := to - c.pointer;
    SpelledRun(m.code, c.pc, MoveCommands(c.pointer, to), '>');
    WalkRight(m, c, n);
    ModOfSmall(to, |c.memory|);
  }

  /** `pointer - to` copies of `<` bring the pointer down to `to`. */
  lemma MoveLeftSegment(m: Machine, c: Config, to: int)
    requires m.Valid() && ValidConfig(m, c) && 0 <= to < c.pointer
    requires Spells(m.code, c.pc, MoveCommands(c.pointer, to))
    ensures var n := c.pointer - to;
            NoBracketsIn(m.code, c.pc, n) && Walk(m, c, n) == c.(pointer := to, pc := c.pc + n, steps := c.steps + n)
  {
    var n := c.pointer - to;
    SpelledRun(m.code, c.pc, MoveCommands(c.pointer, to), '<');
    WalkLeft(m, c, n);
    ModOfSmall(to, |c.memory|);
  }

  /** Running the moves emitted for `to` brings the pointer to `to`. */
  lemma MoveSegment(m: Machine, c: Config, to: int)
    requires m.Valid() && ValidConfig(m, c) && 0 <= to < |c.memory|
    requires Spells(m.code, c.pc, MoveCommands(c.pointer, to))
    ensures var n := |MoveCommands(c.pointer, to)|;
            NoBracketsIn(m.code, c.pc, n) &&
            Walk(m, c, n) == c.(pointer := to, pc := c.pc + n, steps := c.steps + n)
  {
    if to > c.pointer {
      MoveRightSegment(m, c, to);
    } else if to < c.pointer {
      MoveLeftSegment(m, c, to);
    }
  }

  /** `target - cell` copies of `+` raise the cell from `cell` to `target`. */
  lemma RaiseSegment(m: Machine, c: Config, cell: int, target: int)
    requires m.Valid() && ValidConfig(m, c) && c.memory[c.pointer] == cell && cell < target < 256
    requires Spells(m.code, c.pc, ValueCommands(cell, target))
    ensures var n := |ValueCommands(cell, target)|;
            NoBracketsIn(m.code, c.pc, n) &&
            Walk(m, c, n) == c.(memory := c.memory[c.pointer := target], pc := c.pc + n, steps := c.steps + n)
  {
    var n := |ValueCommands(cell, target)|;
    assert cell + n == target;
    SpelledRun(m.code, c.pc, ValueCommands(cell, target), '+');
    WalkInc(m, c, n);
    ModOfSmall(target, 256);
  }

  /** `cell - target` copies of `-` lower the cell from `cell` to `target`. */
  lemma LowerSegment(m: Machine, c: Config, cell: int, target: int)
    requires m.Valid() && ValidConfig(m, c) && c.memory[c.pointer] == cell && 0 <= target < cell
    requires Spells(m.code, c.pc, ValueCommands(cell, target))
    ensures var n := |ValueCommands(cell, target)|;
            NoBracketsIn(m.code, c.pc, n) &&
            Walk(m, c, n) == c.(memory := c.memory[c.pointer := target], pc := c.pc + n, steps := c.steps + n)
  {
    var n := |ValueCommands(cell, target)|;
    assert cell - n == target;
    SpelledRun(m.code, c.pc, ValueCommands(cell, target), '-');
    WalkDec(m, c, n);
    ModOfSmall(target, 256);
  }

  /** A cell that already holds `target` needs no changes. */
  lemma KeepSegment(m: Machine, c: Config, cell: int, target: int)
    requires m.Valid() && ValidConfig(m, c) && c.memory[c.pointer] == cell && target == cell
    ensures var n := |ValueCommands(cell, target)|;
            NoBracketsIn(m.code, c.pc, n) &&
            Walk(m, c, n) == c.(memory := c.memory[c.pointer := target], pc := c.pc + n, steps := c.steps + n)
  {
    assert |ValueCommands(cell, target)| == 0;
    assert c.memory[c.pointer := target] == c.memory;
  }

  /** Running the changes emitted from the cell's value `cell` to a byte `target` leaves `target` in the cell. */
  lemma ValueSegment(m: Machine, c: Config, cell: int, target: int)
    requires m.Valid() && ValidConfig(m, c) && c.memory[c.pointer] == cell && 0 <= target < 256
    requires Spells(m.code, c.pc, ValueCommands(cell, target))
    ensures var n := |ValueCommands(cell, target)|;
            NoBracketsIn(m.code, c.pc, n) &&
            Walk(m, c, n) == c.(memory := c.memory[c.pointer := target], pc := c.pc + n, steps := c.steps + n)
  {
    if target > cell {
      RaiseSegment(m, c, cell, target);
    } else if target < cell {
      LowerSegment(m, c, cell, target);
    } else {
      KeepSegment(m, c, cell, target);
    }
  }

  /** `.` prints the cell. */
  lemma DotStep(m: Machine, c: Config)
    requires m.Valid() && ValidConfig(m, c) && c.pc < |m.code| && m.code[c.pc] == '.'
    ensures NoBracketsIn(m.code, c.pc, 1)
    ensures Walk(m, c, 1) == c.(output := c.output + [c.memory[c.pointer] as char], pc := c.pc + 1, steps := c.steps + 1)
  {
  }

  lemma NoBracketsJoin(code: string, from: int, a: nat, b: nat)
    requires NoBracketsIn(code, from, a) && NoBracketsIn(code, from + a, b)
    ensures NoBracketsIn(code, from, a + b)
  {
  }

  /** Two walks in a row are one walk. */
  lemma WalkJoin(m: Machine, c: Config, n1: nat, n2: nat, c1: Config, c2: Config)
    requires m.Valid() && ValidConfig(m, c) && c.pc + n1 + n2 <= |m.code|
    requires NoBracketsIn(m.code, c.pc, n1) && Walk(m, c, n1) == c1
    requires NoBracketsIn(m.code, c1.pc, n2) && Walk(m, c1, n2) == c2
    ensures NoBracketsIn(m.code, c.pc, n1 + n2) && Walk(m, c, n1 + n2) == c2
  {
    NoBracketsJoin(m.code, c.pc, n1, n2);
    WalkAppend(m, c, n1, n2);
  }

  /** Changes the current cell from `cell` to the byte `v`, then `.`: the cell holds `v` and the character `v` is printed. */
  lemma SetThenPrint(m: Machine, c: Config, cell: int, v: int, changes: string)
    requires m.Valid() && ValidConfig(m, c) && c.memory[c.pointer] == cell && 0 <= v < 256
    requires changes == ValueCommands(cell, v)
    requires Spells(m.code, c.pc, changes + ".")
    ensures var n := |changes| + 1;
            NoBracketsIn(m.code, c.pc, n) &&
            var w := Walk(m, c, n);
            w.memory == c.memory[c.pointer := v] && w.pointer == c.pointer &&
            w.output == c.output + [v as char] && w.input == c.input
  {
    var k := |changes|;
    SpellsSplit(m.code, c.pc, changes, ".");
    ValueSegment(m, c, cell, v);
    var c1 := c.(memory := c.memory[c.pointer := v], pc := c.pc + k, steps := c.steps + k);
    assert m.code[c1.pc] == '.' by {
      assert m.code[c.pc + k + 0] == "."[0];
    }
    DotStep(m, c1);
    WalkJoin(m, c, k, 1, c1, Walk(m, c1, 1));
  }

  /**
   * Moves to cell `best`, changes from its value to the byte `v`, then `.`: the cell holds `v`,
   * the pointer is on it and the character `v` is printed.
   */
  lemma SegmentWalk(m: Machine, c: Config, best: int, v: int, moves: string, changes: string)
    requires m.Valid() && ValidConfig(m, c) && 0 <= best < |c.memory| && 0 <= v < 256
    requires moves == MoveCommands(c.pointer, best) && changes == ValueCommands(c.memory[best], v)
    requires Spells(m.code, c.pc, moves + (changes + "."))
    ensures var n := |moves| + |changes| + 1;
            NoBracketsIn(m.code, c.pc, n) &&
            var w := Walk(m, c, n);
            w.memory == c.memory[best := v] && w.pointer == best && w.output == c.output + [v as char] &&
            w.input == c.input
  {
    var k := |moves|;
    SpellsSplit(m.code, c.pc, moves, changes + ".");
    MoveSegment(m, c, best);
    var c1 := c.(pointer := best, pc := c.pc + k, steps := c.steps + k);
    SetThenPrint(m, c1, c.memory[best], v, changes);
    WalkJoin(m, c, k, |changes| + 1, c1, Walk(m, c1, |changes| + 1));
  }

  /** Writing a simulated cell in both pictures keeps them in step. */
  lemma MirrorWrite(tape: seq<int>, cells: seq<int>, i: int, v: int)
    requires |cells| <= |tape| && tape[..|cells|] == cells && 0 <= i < |cells|
    ensures tape[i := v][..|cells|] == cells[i := v]
  {
  }

  /**
   * The segment the generator emits for one character, run from a configuration that mirrors
   * the simulated tape, prints that character and leaves a configuration that mirrors the
   * simulated tape after it; no input is consumed.
   */
  lemma CharSegment(m: Machine, c: Config, s: Sim, ch: char)
    requires m.Valid() && ValidConfig(m, c) && Mirrors(s, c) && ch as int < 256
    requires Spells(m.code, c.pc, CharCode(s, ch))
    ensures var n := |CharCode(s, ch)|;
            NoBracketsIn(m.code, c.pc, n) &&
            var w := Walk(m, c, n);
            Mirrors(CharStep(s, ch), w) && w.output == c.output + [ch] && w.input == c.input
  {
    var best := Chosen(s, ch);
    assert c.memory[best] == s.memory[best] by {
      assert c.memory[..|s.memory|][best] == c.memory[best];
    }
    var moves, changes := MoveCommands(s.pointer, best), ValueCommands(s.memory[best], ch as int);
    assert CharCode(s, ch) == moves + (changes + ".");
    SegmentWalk(m, c, best, ch as int, moves, changes);
    MirrorWrite(c.memory, s.memory, best, ch as int);
  }

  /** From `from` on, `code` holds the segments the generator emits for `text`, one after another, and then ends. */
  ghost predicate Laid(code: string, from: int, s: Sim, text: string)
    decreases |text|
  {
    |s.memory| >= 1 &&
    if text == [] then from == |code|
    else
      var piece := CharCode(s, text[0]);
      Spells(code, from, piece) && Laid(code, from + |piece|, CharStep(s, text[0]), text[1..])
  }

  /** Code holding the generated code for `text` up to its end holds its segments one after another. */
  lemma {:induction false} LaidOut(code: string, from: int, s: Sim, text: string)
    requires |s.memory| >= 1 && Spells(code, from, GenCode(s, text)) && from + |GenCode(s, text)| == |code|
    ensures Laid(code, from, s, text)
    decreases |text|
  {
    if text != [] {
      var piece, rest := CharCode(s, text[0]), GenCode(CharStep(s, text[0]), text[1..]);
      assert GenCode(s, text) == piece + rest;
      SpellsSplit(code, from, piece, rest);
      LaidOut(code, from + |piece|, CharStep(s, text[0]), text[1..]);
    }
  }

  /**
   * The first character's segment: walking through it reaches the next segment in a
   * configuration that mirrors the simulated tape, with the character printed and no input
   * consumed.
   */
  lemma FirstSegment(m: Machine, c: Config, s: Sim, text: string)
    requires m.Valid() && ValidConfig(m, c) && Mirrors(s, c) && Latin1(text) && Laid(m.code, c.pc, s, text)
    requires text != []
    ensures var n := |CharCode(s, text[0])|;
            c.pc + n <= |m.code| && NoBracketsIn(m.code, c.pc, n) &&
            var w := Walk(m, c, n);
            Mirrors(CharStep(s, text[0]), w) && Latin1(text[1..]) && Laid(m.code, w.pc, CharStep(s, text[0]), text[1..]) &&
            w.output == c.output + [text[0]] && w.input == c.input
  {
    CharSegment(m, c, s, text[0]);
    assert Latin1(text[1..]) by {
      assert forall k :: 0 <= k < |text[1..]| ==> text[1..][k] == text[k + 1];
    }
  }

  /**
   * Walking the generated code for `text`, laid out from a mirroring configuration to the end
   * of the program, prints `text` and consumes no input.
   */
  lemma {:induction false} GenWalk(m: Machine, c: Config, s: Sim, text: string)
    requires m.Valid() && ValidConfig(m, c) && Mirrors(s, c) && Latin1(text) && Laid(m.code, c.pc, s, text)
    ensures var n := |m.code| - c.pc;
            n >= 0 && NoBracketsIn(m.code, c.pc, n) &&
            var w := Walk(m, c, n);
            w.output == c.output + text && w.input == c.input
    decreases |text|
  {
    if text == [] {
      assert c.output + text == c.output;
    } else {
      var n1 := |CharCode(s, text[0])|;
      FirstSegment(m, c, s, text);
      var w := Walk(m, c, n1);
      GenWalk(m, w, CharStep(s, text[0]), text[1..]);
      var n2 := |m.code| - w.pc;
      WalkJoin(m, c, n1, n2, w, Walk(m, w, n2));
      assert n1 + n2 == |m.code| - c.pc;
      PrintedInTurn(c.output, text);
    }
  }

  /**
   * The generated code for `text`, laid out from a mirroring configuration to the end of the
   * program, runs to completion within the budget and below the ceiling and prints `text`.
   */
  lemma GenRun(m: Machine, c: Config, s: Sim, text: string, budget: nat)
    requires m.Valid() && ValidConfig(m, c) && Mirrors(s, c) && Latin1(text) && Laid(m.code, c.pc, s, text)
    requires |m.code| - c.pc <= budget
    requires Limited(m.maxSteps) ==> c.steps + (|m.code| - c.pc) < m.maxSteps.value
    ensures var r := Run(m, c, budget);
            r.Finished? && r.config.output == c.output + text && r.config.input == c.input
  {
    var n := |m.code| - c.pc;
    GenWalk(m, c, s, text);
    RunWalk(m, c, n, budget);
    assert Walk(m, c, n).pc == |m.code|;
  }

  lemma PrintedInTurn(output: string, text: string)
    requires text != []
    ensures output + [text[0]] + text[1..] == output + text
  {
    assert [text[0]] + text[1..] == text;
  }

  lemma SpellsWhole(code: string)
    ensures Spells(code, 0, code)
  {
    forall i | 0 <= i < |code|
      ensures code[0 + i] == code[i]
    {
    }
  }

  /**
   * The whole generated program, run from a fresh zeroed tape at least as long as the
   * generator's, with a ceiling beyond its length or fuel enough for it, finishes having
   * printed the text and read nothing.
   */
  lemma GeneratedRun(m: Machine, size: int, tapeSize: nat, text: string, fuel: nat, input: seq<int>, output: string)
    requires m.Valid() && Latin1(text) && 1 <= size <= tapeSize
    requires m.code == GenCode(Sim(Zeros(size), 0), text)
    requires if Limited(m.maxSteps) then |m.code| < m.maxSteps.value else |m.code| <= fuel
    ensures var init := Config(InitialTape(tapeSize, None), 0, 0, 0, input, output);
            ValidConfig(m, init) &&
            var r := Run(m, init, Budget(m.maxSteps, fuel));
            r.Finished? && r.config.output == output + text && r.config.input == input
  {
    var init := Config(InitialTape(tapeSize, None), 0, 0, 0, input, output);
    var s := Sim(Zeros(size), 0);
    assert init.memory[..size] == Zeros(size);
    SpellsWhole(m.code);
    LaidOut(m.code, 0, s, text);
    GenRun(m, init, s, text, Budget(m.maxSteps, fuel));
  }

  /**
   * From `from` on, `code` holds the single-cell scheme's changes and `.` for each character of
   * `text`, starting from the code point `previous`, one after another, and then ends.
   */
  ghost predicate SimpleLaidFrom(code: string, from: int, text: string, previous: int)
    decreases |text|
  {
    if text == [] then from == |code|
    else
      var piece := ValueCommands(previous, text[0] as int) + ".";
      Spells(code, from, piece) && SimpleLaidFrom(code, from + |piece|, text[1..], text[0] as int)
  }

  /** Code holding the per-character part for `text` up to its end holds its pieces one after another. */
  lemma {:induction false} SimpleLaidOut(code: string, from: int, text: string, previous: int)
    requires Spells(code, from, SimpleBody(text, previous)) && from + |SimpleBody(text, previous)| == |code|
    ensures SimpleLaidFrom(code, from, text, previous)
    decreases |text|
  {
    if text != [] {
      var piece := ValueCommands(previous, text[0] as int) + ".";
      var rest := SimpleBody(text[1..], text[0] as int);
      assert SimpleBody(text, previous) == piece + rest;
      SpellsSplit(code, from, piece, rest);
      SimpleLaidOut(code, from + |piece|, text[1..], text[0] as int);
    }
  }

  /**
   * The first character of the per-character part of the single-cell scheme: it prints that
   * character and leaves it in the cell, with the rest of the part next in the code.
   */
  lemma SimpleFirst(m: Machine, c: Config, text: string, previous: int)
    requires m.Valid() && ValidConfig(m, c) && Latin1(text) && text != [] && c.memory[c.pointer] == previous
    requires SimpleLaidFrom(m.code, c.pc, text, previous)
    ensures var n := |ValueCommands(previous, text[0] as int)| + 1;
            c.pc + n <= |m.code| && NoBracketsIn(m.code, c.pc, n) &&
            var w := Walk(m, c, n);
            w.memory[w.pointer] == text[0] as int && Latin1(text[1..]) &&
            SimpleLaidFrom(m.code, w.pc, text[1..], text[0] as int) &&
            w.output == c.output + [text[0]] && w.input == c.input
  {
    var v := text[0] as int;
    SetThenPrint(m, c, previous, v, ValueCommands(previous, v));
    assert v as char == text[0];
    assert Latin1(text[1..]) by {
      assert forall k :: 0 <= k < |text[1..]| ==> text[1..][k] == text[k + 1];
    }
  }

  /**
   * The per-character part of the single-cell scheme, run with the current cell holding
   * `previous`, prints the text and reads nothing.
   */
  lemma {:induction false} SimpleWalk(m: Machine, c: Config, text: string, previous: int)
    requires m.Valid() && ValidConfig(m, c) && Latin1(text) && c.memory[c.pointer] == previous
    requires SimpleLaidFrom(m.code, c.pc, text, previous)
    ensures var n := |m.code| - c.pc;
            n >= 0 && NoBracketsIn(m.code, c.pc, n) &&
            var w := Walk(m, c, n);
            w.output == c.output + text && w.input == c.input
    decreases |text|
  {
    if text == [] {
      assert c.output + text == c.output;
    } else {
      SimpleFirst(m, c, text, previous);
      var n1 := |ValueCommands(previous, text[0] as int)| + 1;
      var w := Walk(m, c, n1);
      SimpleWalk(m, w, text[1..], text[0] as int);
      var n2 := |m.code| - w.pc;
      WalkJoin(m, c, n1, n2, w, Walk(m, w, n2));
      assert n1 + n2 == |m.code| - c.pc;
      PrintedInTurn(c.output, text);
    }
  }

  /** The single-cell code from the tape start: the move to `startCell`, then the per-character part. */
  lemma SimpleWholeWalk(m: Machine, init: Config, text: string, startCell: int)
    requires m.Valid() && ValidConfig(m, init) && Latin1(text)
    requires init.pointer == 0 && init.pc == 0 && 0 <= startCell < |init.memory| && init.memory[startCell] == 0
    requires Spells(m.code, 0, MoveCommands(0, startCell))
    requires SimpleLaidFrom(m.code, |MoveCommands(0, startCell)|, text, 0)
    ensures NoBracketsIn(m.code, 0, |m.code|)
    ensures var w := Walk(m, init, |m.code|);
            w.output == init.output + text && w.input == init.input
  {
    MoveSegment(m, init, startCell);
    var n1 := |MoveCommands(0, startCell)|;
    var w1 := Walk(m, init, n1);
    SimpleWalk(m, w1, text, 0);
    var n2 := |m.code| - w1.pc;
    WalkJoin(m, init, n1, n2, w1, Walk(m, w1, n2));
    assert n1 + n2 == |m.code|;
  }

  /**
   * The code `simple_generate` produces, run from a fresh zeroed tape on which `startCell` lies,
   * with a ceiling beyond its length or fuel enough for it, finishes having printed the text and
   * read nothing.
   */
  lemma SimpleRun(m: Machine, tapeSize: nat, text: string, startCell: int, fuel: nat, input: seq<int>, output: string)
    requires m.Valid() && Latin1(text) && 0 <= startCell < tapeSize
    requires m.code == SimpleCode(text, startCell)
    requires if Limited(m.maxSteps) then |m.code| < m.maxSteps.value else |m.code| <= fuel
    ensures var init := Config(InitialTape(tapeSize, None), 0, 0, 0, input, output);
            ValidConfig(m, init) &&
            var r := Run(m, init, Budget(m.maxSteps, fuel));
            r.Finished? && r.config.output == output + text && r.config.input == input
  {
    var init := Config(InitialTape(tapeSize, None), 0, 0, 0, input, output);
    var budget := Budget(m.maxSteps, fuel);
    if text == [] {
      assert output + text == output;
    } else {
      var moves := MoveCommands(0, startCell);
      SpellsWhole(m.code);
      SpellsSplit(m.code, 0, moves, SimpleBody(text, 0));
      SimpleLaidOut(m.code, |moves|, text, 0);
      SimpleWholeWalk(m, init, text, startCell);
      RunWalk(m, init, |m.code|, budget);
      assert Walk(m, init, |m.code|).pc == |m.code|;
    }
  }

  /**
   * `generate` on a fresh or reset generator, then `execute` on an interpreter whose tape is at
   * least as long as the generator's: the run completes and prints exactly the text.
   */
  method GenerateThenExecute(generator: BrainfuckGenerator, interpreter: BrainfuckInterpreter, text: string, fuel: nat)
    returns (code: string, r: Outcome)
    requires generator.pointer == 0 && 1 <= generator.memorySize <= interpreter.memorySize
    requires Latin1(text)
    requires var length := |GenCode(Sim(Zeros(generator.memorySize), 0), text)|;
             if Limited(interpreter.maxSteps) then length < interpreter.maxSteps.value else length <= fuel
    modifies generator, interpreter
    ensures code == GenCode(Sim(Zeros(generator.memorySize), 0), text)
    ensures r.Completed?
    ensures interpreter.output == old(interpreter.output) + text && interpreter.input == old(interpreter.input)
  {
    code := generator.Generate(text);
    CheckGenerated(generator.memorySize, text, code);
    r := interpreter.Execute(code, None, 0, fuel);
    ghost var m := Machine(code, interpreter.bracketMap, interpreter.eofBehavior, interpreter.maxSteps);
    GeneratedRun(m, generator.memorySize, interpreter.memorySize, text, fuel, old(interpreter.input), old(interpreter.output));
  }

  /**
   * `simple_generate`, then `execute` on an interpreter whose tape reaches `startCell`: the run
   * completes and prints exactly the text.
   */
  method SimpleGenerateThenExecute(interpreter: BrainfuckInterpreter, text: string, startCell: int, fuel: nat)
    returns (code: string, r: Outcome)
    requires 0 <= startCell < interpreter.memorySize && Latin1(text)
    requires var length := |SimpleCode(text, startCell)|;
             if Limited(interpreter.maxSteps) then length < interpreter.maxSteps.value else length <= fuel
    modifies interpreter
    ensures code == SimpleCode(text, startCell)
    ensures r.Completed?
    ensures interpreter.output == old(interpreter.output) + text && interpreter.input == old(interpreter.input)
  {
    code := BrainfuckGenerator.SimpleGenerate(text, startCell);
    SimpleCommands(text, startCell);
    GeneratorCodeIsClean(code);
    r := interpreter.Execute(code, None, 0, fuel);
    ghost var m := Machine(code, interpreter.bracketMap, interpreter.eofBehavior, interpreter.maxSteps);
    SimpleRun(m, interpreter.memorySize, text, startCell, fuel, old(interpreter.input), old(interpreter.output));
  }

  lemma CheckGenerated(memorySize: int, text: string, code: string)
    requires memorySize >= 1 && code == GenCode(Sim(Zeros(memorySize), 0), text)
    ensures CleanProgram(code) == code && WellBracketed(code)
  {
    GenCommands(Sim(Zeros(memorySize), 0), text);
    GeneratorCodeIsClean(code);
  }
}
