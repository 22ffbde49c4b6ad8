/**
 * Properties of the generator model: the commands it can emit, one `.` per character, the
 * cost of each character's segment, what a repeated character costs, and the single-cell
 * scheme.
 */
module GeneratorProps {
  import opened Basics
  import opened Generator

  /** The five commands the generator uses: no input and no brackets. */
  predicate GeneratorCommands(code: string)
  {
    forall k :: 0 <= k < |code| ==> code[k] in "><+-."
  }

  lemma AppendCommands(a: string, b: string)
    requires GeneratorCommands(a) && GeneratorCommands(b)
    ensures GeneratorCommands(a + b)
  {
  }

  lemma CharCodeCommands(s: Sim, ch: char)
    requires |s.memory| >= 1
    ensures GeneratorCommands(CharCode(s, ch))
  {
    var best := Chosen(s, ch);
    AppendCommands(MoveCommands(s.pointer, best), ValueCommands(s.memory[best], ch as int));
    AppendCommands(MoveCommands(s.pointer, best) + ValueCommands(s.memory[best], ch as int), ".");
  }

  /** `generate` emits only `><+-.`. */
  lemma {:induction false} GenCommands(s: Sim, text: string)
    requires |s.memory| >= 1
    ensures GeneratorCommands(GenCode(s, text))
    decreases |text|
  {
    if text != [] {
      CharCodeCommands(s, text[0]);
      GenCommands(CharStep(s, text[0]), text[1..]);
      AppendCommands(CharCode(s, text[0]), GenCode(CharStep(s, text[0]), text[1..]));
    }
  }

  lemma MoveCommandsNoDot(from: int, to: int)
    ensures Count(MoveCommands(from, to), '.') == 0
  {
    if to > from {
      CountRepeat('>', to - from, '.');
    } else if to < from {
      CountRepeat('<', from - to, '.');
    }
  }

  lemma ValueCommandsNoDot(current: int, target: int)
    ensures Count(ValueCommands(current, target), '.') == 0
  {
    if target > current {
      CountRepeat('+', target - current, '.');
    } else if target < current {
      CountRepeat('-', current - target, '.');
    }
  }

  lemma CharCodeOneDot(s: Sim, ch: char)
    requires |s.memory| >= 1
    ensures Count(CharCode(s, ch), '.') == 1
  {
    var best := Chosen(s, ch);
    var moves, changes := MoveCommands(s.pointer, best), ValueCommands(s.memory[best], ch as int);
    MoveCommandsNoDot(s.pointer, best);
    ValueCommandsNoDot(s.memory[best], ch as int);
    CountAppend(moves, changes, '.');
    CountAppend(moves + changes, ".", '.');
  }

  /** `generate` emits exactly one `.` per character. */
  lemma {:induction false} GenOneDotPerChar(s: Sim, text: string)
    requires |s.memory| >= 1
    ensures Count(GenCode(s, text), '.') == |text|
    decreases |text|
  {
    if text != [] {
      CharCodeOneDot(s, text[0]);
      GenOneDotPerChar(CharStep(s, text[0]), text[1..]);
      CountAppend(CharCode(s, text[0]), GenCode(CharStep(s, text[0]), text[1..]), '.');
    }
  }

  /**
   * A character's segment is as short as any cell allows: one command per cell moved and per
   * unit changed, then `.`, for the chosen cell, and no cell needs fewer.
   */
  lemma CharCodeCheapest(s: Sim, ch: char)
    requires |s.memory| >= 1
    ensures var best, target := Chosen(s, ch), ch as int;
            |CharCode(s, ch)| == Cost(s.memory, s.pointer, target, best) + 1 &&
            forall i :: 0 <= i < |s.memory| ==> |CharCode(s, ch)| <= Cost(s.memory, s.pointer, target, i) + 1
  {
  }

  /**
   * After one character the chosen cell holds its code point and the pointer is on it; every
   * other cell is as it was.
   */
  lemma CharStepEffect(s: Sim, ch: char)
    requires |s.memory| >= 1
    ensures var r := CharStep(s, ch);
            r.pointer == Chosen(s, ch) && r.memory[r.pointer] == ch as int &&
            forall i :: 0 <= i < |s.memory| && i != r.pointer ==> r.memory[i] == s.memory[i]
  {
  }

  /**
   * The same character again costs nothing to reach: the current cell already holds it and
   * every other cell is at least one move away, so only `.` is emitted and nothing changes.
   */
  lemma RepeatedCharOnlyDot(s: Sim, ch: char)
    requires |s.memory| >= 1
    ensures CharCode(CharStep(s, ch), ch) == "."
    ensures CharStep(CharStep(s, ch), ch) == CharStep(s, ch)
  {
    var r := CharStep(s, ch);
    var b := Chosen(r, ch);
    assert Cost(r.memory, r.pointer, ch as int, r.pointer) == 0;
    assert b == r.pointer;
    assert r.memory[b := ch as int] == r.memory;
  }

  /** The last character written sits under the pointer at the end of `generate`. */
  lemma {:induction false} GenFinalHoldsLast(s: Sim, text: string)
    requires |s.memory| >= 1 && text != []
    ensures var r := GenFinal(s, text);
            0 <= r.pointer < |r.memory| && r.memory[r.pointer] == text[|text| - 1] as int
    decreases |text|
  {
    if |text| > 1 {
      GenFinalHoldsLast(CharStep(s, text[0]), text[1..]);
    }
  }

  lemma {:induction false} SimpleBodyOneDotPerChar(text: string, previous: int)
    ensures Count(SimpleBody(text, previous), '.') == |text|
    decreases |text|
  {
    if text != [] {
      var changes := ValueCommands(previous, text[0] as int);
      ValueCommandsNoDot(previous, text[0] as int);
      SimpleBodyOneDotPerChar(text[1..], text[0] as int);
      CountAppend(changes, ".", '.');
      CountAppend(changes + ".", SimpleBody(text[1..], text[0] as int), '.');
    }
  }

  /** `simple_generate` also emits exactly one `.` per character. */
  lemma SimpleOneDotPerChar(text: string, startCell: int)
    ensures Count(SimpleCode(text, startCell), '.') == |text|
  {
    if text != [] {
      MoveCommandsNoDot(0, startCell);
      SimpleBodyOneDotPerChar(text, 0);
      CountAppend(MoveCommands(0, startCell), SimpleBody(text, 0), '.');
    }
  }

  lemma {:induction false} SimpleBodyCommands(text: string, previous: int)
    ensures GeneratorCommands(SimpleBody(text, previous))
    decreases |text|
  {
    if text != [] {
      var changes := ValueCommands(previous, text[0] as int);
      SimpleBodyCommands(text[1..], text[0] as int);
      AppendCommands(changes, ".");
      AppendCommands(changes + ".", SimpleBody(text[1..], text[0] as int));
    }
  }

  /** `simple_generate` also emits only `><+-.`. */
  lemma SimpleCommands(text: string, startCell: int)
    ensures GeneratorCommands(SimpleCode(text, startCell))
  {
    if text != [] {
      SimpleBodyCommands(text, 0);
      AppendCommands(MoveCommands(0, startCell), SimpleBody(text, 0));
    }
  }

  /** `simple_generate("A", 0)`: sixty-five `+` and a `.`. */
  lemma SimpleCapitalA()
    ensures SimpleCode("A", 0) == Repeat('+', 65) + "."
  {
    assert "A"[1..] == [];
  }
}
