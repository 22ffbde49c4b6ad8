/**
 * The text-to-brainfuck generator of brainfuck/generator.py.
 *
 * For every character the generator picks, on its simulated tape, the cell that needs the
 * fewest pointer moves plus value changes to hold the character's code point, moves there,
 * adjusts the cell, and emits `.`. The functions below specify one character (`CharCode`,
 * `CharStep`) and a whole text (`GenCode`, `GenFinal`); the class `BrainfuckGenerator` holds
 * the imperative code, proved against them.
 */
module Generator {
  import opened Basics

  /** The generator's picture of the tape: cell values and the pointer. */
  datatype Sim = Sim(memory: seq<int>, pointer: int)

  /** Moves plus value changes needed to print `target` from `cell`. */
  function Cost(memory: seq<int>, pointer: int, target: int, cell: int): (c: nat)
    requires 0 <= cell < |memory|
    ensures c == 0 <==> cell == pointer && memory[cell] == target
    ensures c >= Abs(cell - pointer) && c >= Abs(target - memory[cell])
  {
    Abs(cell - pointer) + Abs(target - memory[cell])
  }

  /** The cheapest of the first `n` cells; among equally cheap cells, the lowest index. */
  function BestCell(memory: seq<int>, pointer: int, target: int, n: nat): (best: nat)
    requires 1 <= n <= |memory|
    ensures best < n
    ensures forall i :: 0 <= i < n ==> Cost(memory, pointer, target, best) <= Cost(memory, pointer, target, i)
    ensures forall i :: 0 <= i < best ==> Cost(memory, pointer, target, best) < Cost(memory, pointer, target, i)
  {
    if n == 1 then 0
    else
      var b := BestCell(memory, pointer, target, n - 1);
      if Cost(memory, pointer, target, n - 1) < Cost(memory, pointer, target, b) then n - 1 else b
  }

  /** Scanning one more cell: it replaces the best so far only when strictly cheaper. */
  lemma BestCellNext(memory: seq<int>, pointer: int, target: int, n: nat)
    requires 1 <= n < |memory|
    ensures BestCell(memory, pointer, target, n + 1) ==
              var b := BestCell(memory, pointer, target, n);
              if Cost(memory, pointer, target, n) < Cost(memory, pointer, target, b) then n else b
  {
  }

  /** Pointer moves from `from` to `to`: `>` to the right, `<` to the left, one per cell. */
  function MoveCommands(from: int, to: int): (s: string)
    ensures |s| == Abs(to - from)
    ensures forall k :: 0 <= k < |s| ==> s[k] == if to > from then '>' else '<'
  {
    if to > from then Repeat('>', to - from)
    else if to < from then Repeat('<', from - to)
    else []
  }

  /** Cell changes from `current` to `target`: `+` upwards, `-` downwards, one per unit. */
  function ValueCommands(current: int, target: int): (s: string)
    ensures |s| == Abs(target - current)
    ensures forall k :: 0 <= k < |s| ==> s[k] == if target > current then '+' else '-'
  {
    if target > current then Repeat('+', target - current)
    else if target < current then Repeat('-', current - target)
    else []
  }

  /** The cell the generator uses for `ch`. */
  function Chosen(s: Sim, ch: char): (best: nat)
    requires |s.memory| >= 1
    ensures best < |s.memory|
  {
    BestCell(s.memory, s.pointer, ch as int, |s.memory|)
  }

  /** The code emitted for one character. */
  function CharCode(s: Sim, ch: char): (r: string)
    requires |s.memory| >= 1
  {
    var best := Chosen(s, ch);
    MoveCommands(s.pointer, best) + ValueCommands(s.memory[best], ch as int) + "."
  }

  /** The simulated tape after one character: the chosen cell holds it and the pointer is there. */
  function CharStep(s: Sim, ch: char): (r: Sim)
    requires |s.memory| >= 1
    ensures |r.memory| == |s.memory| && 0 <= r.pointer < |r.memory|
  {
    var best := Chosen(s, ch);
    Sim(s.memory[best := ch as int], best)
  }

  function GenCode(s: Sim, text: string): (r: string)
    requires |s.memory| >= 1
    decreases |text|
  {
    if text == [] then [] else CharCode(s, text[0]) + GenCode(CharStep(s, text[0]), text[1..])
  }

  function GenFinal(s: Sim, text: string): (r: Sim)
    requires |s.memory| >= 1
    ensures |r.memory| == |s.memory|
    ensures 0 <= s.pointer < |s.memory| ==> 0 <= r.pointer < |r.memory|
    decreases |text|
  {
    if text == [] then s else GenFinal(CharStep(s, text[0]), text[1..])
  }

  /** One more character of `text` moved from what is left to generate to what is generated. */
  lemma GenAdvance(s0: Sim, s: Sim, text: string, i: nat, before: string, code: string)
    requires |s0.memory| >= 1 && |s.memory| >= 1 && i < |text|
    requires before + GenCode(s, text[i..]) == GenCode(s0, text)
    requires GenFinal(s, text[i..]) == GenFinal(s0, text)
    requires code == before + CharCode(s, text[i])
    ensures code + GenCode(CharStep(s, text[i]), text[i + 1..]) == GenCode(s0, text)
    ensures GenFinal(CharStep(s, text[i]), text[i + 1..]) == GenFinal(s0, text)
  {
    GenUnfold(s, text, i);
    ConcatStep(before, CharCode(s, text[i]), GenCode(CharStep(s, text[i]), text[i + 1..]), code);
  }

  lemma ConcatStep(before: string, piece: string, rest: string, code: string)
    requires code == before + piece
    ensures code + rest == before + (piece + rest)
  {
  }

  /** The three appends of one character's commands add up to `CharCode`. */
  lemma CharCodeAppended(before: string, s: Sim, ch: char, code: string)
    requires |s.memory| >= 1
    requires var best := Chosen(s, ch);
             code == before + MoveCommands(s.pointer, best) + ValueCommands(s.memory[best], ch as int) + "."
    ensures code == before + CharCode(s, ch)
  {
    var best := Chosen(s, ch);
    var moves, changes := MoveCommands(s.pointer, best), ValueCommands(s.memory[best], ch as int);
    assert before + moves + changes + "." == before + (moves + changes + ".");
  }

  lemma GenUnfold(s: Sim, text: string, i: nat)
    requires |s.memory| >= 1 && i < |text|
    ensures GenCode(s, text[i..]) == CharCode(s, text[i]) + GenCode(CharStep(s, text[i]), text[i + 1..])
    ensures GenFinal(s, text[i..]) == GenFinal(CharStep(s, text[i]), text[i + 1..])
  {
    assert text[i..][1..] == text[i + 1..];
  }

  /** The single-cell scheme after its first character: value changes from `previous`, then `.`. */
  function SimpleBody(text: string, previous: int): (r: string)
  {
    if text == [] then [] else ValueCommands(previous, text[0] as int) + "." + SimpleBody(text[1..], text[0] as int)
  }

  /** One more character of the single-cell scheme. */
  lemma SimpleAdvance(text: string, i: nat, previous: int, base: string, code: string)
    requires i < |text| && code == base + ValueCommands(previous, text[i] as int) + "."
    ensures code + SimpleBody(text[i + 1..], text[i] as int) == base + SimpleBody(text[i..], previous)
  {
    assert text[i..][1..] == text[i + 1..];
    var changes := ValueCommands(previous, text[i] as int);
    var rest := SimpleBody(text[i + 1..], text[i] as int);
    assert SimpleBody(text[i..], previous) == changes + "." + rest;
    assert base + changes + "." + rest == base + (changes + "." + rest);
  }

  /** The single-cell scheme: one move to `startCell` before the first character, then `SimpleBody`. */
  function SimpleCode(text: string, startCell: int): (r: string)
    ensures text == [] <==> r == []
  {
    if text == [] then [] else MoveCommands(0, startCell) + SimpleBody(text, 0)
  }

  /** The first of the first `n` cells whose value is nearest to `target`. */
  function NearestCell(memory: seq<int>, target: int, n: nat): (best: nat)
    requires 1 <= n <= |memory|
    ensures best < n
    ensures forall i :: 0 <= i < n ==> Abs(target - memory[best]) <= Abs(target - memory[i])
    ensures forall i :: 0 <= i < best ==> Abs(target - memory[best]) < Abs(target - memory[i])
  {
    if n == 1 then 0
    else
      var b := NearestCell(memory, target, n - 1);
      if Abs(target - memory[n - 1]) < Abs(target - memory[b]) then n - 1 else b
  }

  class BrainfuckGenerator {
    /** Number of simulated cells. */
    const memorySize: int
    var pointer: int

    constructor (memorySize: int := 10)
      ensures this.memorySize == memorySize && pointer == 0
    {
      this.memorySize := memorySize;
      pointer := 0;
    }

    method Reset()
      modifies this`pointer
      ensures pointer == 0
    {
      pointer := 0;
    }

    /** Appends the moves from the current pointer to `targetCell`. */
    method AddMoveCommands(code: string, targetCell: int) returns (r: string)
      ensures r == code + MoveCommands(pointer, targetCell)
    {
      var move := targetCell - pointer;
      r := code;
      if move > 0 {
        r := r + Repeat('>', move);
      } else if move < 0 {
        r := r + Repeat('<', -move);
      }
    }

    /** Appends the changes taking a cell from `current` to `target`. */
    static method AddValueCommands(code: string, current: int, target: int) returns (r: string)
      ensures r == code + ValueCommands(current, target)
    {
      var delta := target - current;
      r := code;
      if delta > 0 {
        r := r + Repeat('+', delta);
      } else if delta < 0 {
        r := r + Repeat('-', -delta);
      }
    }

    /**
     * The scan over all cells for one character: the first cell, in index order, whose cost is
     * strictly below every cost seen before it. No cost is seen before the first cell.
     */
    method CheapestCell(memory: array<int>, ch: char) returns (bestCell: int)
      requires memorySize >= 1 && memory.Length == memorySize
      ensures bestCell == Chosen(Sim(memory[..], pointer), ch)
    {
      var target := ch as int;
      ghost var mem := memory[..];
      bestCell := 0;
      var minCommands: Option<int> := None;
      var cell := 0;
      while cell < memorySize
        invariant 0 <= cell <= memorySize
        invariant cell == 0 ==> minCommands == None && bestCell == 0
        invariant cell > 0 ==>
                    bestCell == BestCell(mem, pointer, target, cell) &&
                    minCommands == Some(Cost(mem, pointer, target, bestCell))
      {
        var move := Abs(cell - pointer);
        var valueDiff := Abs(target - memory[cell]);
        var totalCommands := move + valueDiff;
        assert totalCommands == Cost(mem, pointer, target, cell);
        if cell > 0 {
          BestCellNext(mem, pointer, target, cell);
        }
        if minCommands.None? || totalCommands < minCommands.value {
          minCommands := Some(totalCommands);
          bestCell := cell;
        }
        cell := cell + 1;
      }
    }

    /**
     * One character of `generate`: pick the cheapest cell, append the moves, the value changes
     * and `.`, then record the character in that cell and move the pointer there.
     */
    method EmitChar(memory: array<int>, ch: char, code: string) returns (r: string)
      requires memorySize >= 1 && memory.Length == memorySize
      modifies memory, this`pointer
      ensures var s := Sim(old(memory[..]), old(pointer));
              r == code + CharCode(s, ch) && Sim(memory[..], pointer) == CharStep(s, ch)
    {
      ghost var s := Sim(memory[..], pointer);
      var bestCell := CheapestCell(memory, ch);
      r := AddMoveCommands(code, bestCell);
      r := AddValueCommands(r, memory[bestCell], ch as int);
      r := r + ".";
      memory[bestCell] := ch as int;
      pointer := bestCell;
      CharCodeAppended(code, s, ch, r);
    }

    /**
     * Code printing `text`, from a fresh simulated tape of `memorySize` zeros and the pointer
     * left by the previous call. Every character needs a cell, so a non-empty text needs
     * `memorySize >= 1`.
     */
    method Generate(text: string) returns (code: string)
      requires text != [] ==> memorySize >= 1
      modifies this`pointer
      ensures text != [] ==>
                var s := Sim(Zeros(memorySize), old(pointer));
                code == GenCode(s, text) && pointer == GenFinal(s, text).pointer
      ensures text == [] ==> code == [] && pointer == old(pointer)
    {
      code := [];
      if text == [] {
        // nothing to print: no cell is touched and the pointer stays
        return;
      }
      var memory := new int[memorySize](_ => 0);
      ghost var s0 := Sim(memory[..], pointer);
      assert memory[..] == Zeros(memorySize);
      var i := 0;
      ghost var sim := s0;
      while i < |text|
        invariant 0 <= i <= |text| && memory.Length == memorySize
        invariant sim == Sim(memory[..], pointer)
        invariant code + GenCode(sim, text[i..]) == GenCode(s0, text)
        invariant GenFinal(sim, text[i..]) == GenFinal(s0, text)
      {
        ghost var before := code;
        code := EmitChar(memory, text[i], code);
        GenAdvance(s0, sim, text, i, before, code);
        sim := CharStep(sim, text[i]);
        i := i + 1;
      }
      assert text[i..] == [];
    }

    /**
     * The first cell among the first `memorySize` (at least one) whose value is nearest to
     * `target`, and that distance.
     */
    method FindBestCell(memory: seq<int>, target: int) returns (bestCell: int, bestDiff: int)
      requires |memory| >= 1 && memorySize <= |memory|
      ensures var n := if memorySize > 1 then memorySize else 1;
              0 <= bestCell < n && bestDiff == Abs(target - memory[bestCell]) &&
              (forall i :: 0 <= i < n ==> bestDiff <= Abs(target - memory[i])) &&
              (forall i :: 0 <= i < bestCell ==> bestDiff < Abs(target - memory[i]))
    {
      bestCell := 0;
      bestDiff := Abs(target - memory[0]);
      var i := 1;
      while i < memorySize
        invariant 1 <= i <= (if memorySize > 1 then memorySize else 1)
        invariant bestCell == NearestCell(memory, target, i) && bestDiff == Abs(target - memory[bestCell])
      {
        var diff := Abs(target - memory[i]);
        if diff < bestDiff {
          bestDiff := diff;
          bestCell := i;
        }
        i := i + 1;
      }
    }

    /** Single-cell generation: move to `startCell` once, then reach each code point from the previous one. */
    static method SimpleGenerate(text: string, startCell: int := 0) returns (code: string)
      ensures code == SimpleCode(text, startCell)
    {
      code := [];
      var currentValue := 0;
      var pointer := 0;
      var i := 0;
      while i < |text|
        invariant 0 <= i <= |text|
        invariant pointer == (if i == 0 then 0 else startCell)
        invariant currentValue == (if i == 0 then 0 else text[i - 1] as int)
        invariant i == 0 ==> code == []
        invariant i > 0 ==> code + SimpleBody(text[i..], currentValue) == SimpleCode(text, startCell)
      {
        var target := text[i] as int;
        var delta := target - currentValue;
        if pointer != startCell {
          var move := startCell - pointer;
          code := code + (if move > 0 then Repeat('>', move) else Repeat('<', -move));
          pointer := startCell;
        }
        ghost var base := code;
        assert i == 0 ==> base == MoveCommands(0, startCell);
        if delta != 0 {
          code := code + (if delta > 0 then Repeat('+', delta) else Repeat('-', -delta));
        }
        code := code + ".";
        SimpleAdvance(text, i, currentValue, base, code);
        currentValue := target;
        i := i + 1;
      }
      assert i > 0 ==> text[i..] == [];
    }
  }
}
