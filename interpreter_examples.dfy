/** Small programs run on the step machine. */
module InterpreterExamples {
  import opened Prelude
  import opened Interpreter
  import Memory
  import Program
  import CommandAst
  import Optimizer

  /** `+.` on a one-cell tape prints the character with code 1 and halts. */
  lemma RunsIncrementPrint(chars: seq<char>)
    requires chars == "+."
    ensures RunSpec(chars, Machine([0], 0, 0, []), 3) == (Halted, Machine([1], 0, 2, [Memory.ByteChar(1)]))
  {
    var m0 := Machine([0], 0, 0, []);
    var m1 := Machine([1], 0, 1, []);
    IncrementZeroCell();
    var m2 := Machine([1], 0, 2, [Memory.ByteChar(1)]);
    assert StepSpec(chars, m0) == (Ok(true), m1);
    assert m1.output + [Memory.ByteChar(m1.tape[0])] == m2.output;
    assert StepSpec(chars, m1) == (Ok(true), m2);
    assert StepSpec(chars, m2) == (Ok(false), m2);
  }

  /** `++[-]`: the first `]` sees a nonzero cell and jumps back just after
      the `[`; the second sees zero and falls through. */
  lemma RunsClearingLoop(chars: seq<char>)
    requires chars == "++[-]"
    ensures RunSpec(chars, Machine([0], 0, 0, []), 8) == (Halted, Machine([0], 0, 5, []))
  {
    var m0 := Machine([0], 0, 0, []);
    var m1 := Machine([1], 0, 1, []);
    var m2 := Machine([2], 0, 2, []);
    var m3 := Machine([2], 0, 3, []);
    var m4 := Machine([1], 0, 4, []);
    var m5 := Machine([1], 0, 3, []);
    var m6 := Machine([0], 0, 4, []);
    var m7 := Machine([0], 0, 5, []);
    CellArithmetic();
    assert StepSpec(chars, m0) == (Ok(true), m1);
    assert StepSpec(chars, m1) == (Ok(true), m2);
    assert StepSpec(chars, m2) == (Ok(true), m3);
    assert StepSpec(chars, m3) == (Ok(true), m4);
    assert Program.BackMatch(chars, 5, 0) == Some(2) by {
      assert chars[4] == ']' && chars[3] == '-' && chars[2] == '[';
      assert Program.BackMatch(chars, 3, -1) == Some(0);
      assert Program.BackMatch(chars, 4, -1) == Some(1);
    }
    assert StepSpec(chars, m4) == (Ok(true), m5);
    assert StepSpec(chars, m5) == (Ok(true), m6);
    assert StepSpec(chars, m6) == (Ok(true), m7);
    assert StepSpec(chars, m7) == (Ok(false), m7);
  }

  /** `+]`: the `]` on a nonzero cell finds no `[`, and the run fails at 1. */
  lemma RunFailsOnUnmatchedClose(chars: seq<char>)
    requires chars == "+]"
    ensures RunSpec(chars, Machine([0], 0, 0, []), 3).0 == Failed(Program.LoopTraversalError(1))
  {
    var m1 := Machine([1], 0, 1, []);
    IncrementZeroCell();
    assert StepSpec(chars, Machine([0], 0, 0, [])) == (Ok(true), m1);
    assert Program.BackMatch(chars, 2, 0) == None by {
      assert chars[1] == ']' && chars[0] == '+';
      assert Program.BackMatch(chars, 0, 0) == None;
      assert Program.BackMatch(chars, 1, -1) == None;
    }
    assert StepSpec(chars, m1).0 == Err(Program.LoopTraversalError(1));
  }

  lemma IncrementZeroCell()
    ensures var tape: seq<u8> := [0]; tape[0 := WrappingAdd(0, 1)] == [1]
  {
    assert WrappingAdd(0, 1) == 1;
  }

  lemma CellArithmetic()
    ensures var tape: seq<u8> := [0]; tape[0 := WrappingAdd(0, 1)] == [1]
    ensures var tape: seq<u8> := [1]; tape[0 := WrappingAdd(1, 1)] == [2]
    ensures var tape: seq<u8> := [2]; tape[0 := WrappingSub(2, 1)] == [1]
    ensures var tape: seq<u8> := [1]; tape[0 := WrappingSub(1, 1)] == [0]
  {
    assert WrappingAdd(0, 1) == 1 && WrappingAdd(1, 1) == 2;
    assert WrappingSub(2, 1) == 1 && WrappingSub(1, 1) == 0;
  }

  // ---------------------------------------------------------------------
  // `+[++]`: a loop the optimizer rewrites to `Zero` that never ends

  /** Inside the loop of `+[++]`: the cell is odd on entry to the body and at
      the `]`, and even between the two `+`. */
  predicate InEvenLoop(m: Machine)
  {
    m.cursor < |m.tape| && 2 <= m.pc <= 4 &&
    m.tape[m.cursor] as int % 2 == (if m.pc == 3 then 0 else 1)
  }

  lemma IncrementFlipsParity(x: u8)
    ensures WrappingAdd(x, 1) as int % 2 == 1 - x as int % 2
  {
    if x == 255 {
      assert WrappingAdd(x, 1) == 0;
    } else {
      assert WrappingAdd(x, 1) as int == x as int + 1;
    }
  }

  /** The `]` of `+[++]` jumps back to the `+` just after the `[`. */
  lemma EvenLoopBackMatch(chars: seq<char>)
    requires chars == "+[++]"
    ensures Program.BackMatch(chars, 5, 0) == Some(3)
  {
    assert chars[4] == ']' && chars[3] == '+' && chars[2] == '+' && chars[1] == '[';
    assert Program.BackMatch(chars, 2, -1) == Some(0);
    assert Program.BackMatch(chars, 3, -1) == Some(1);
    assert Program.BackMatch(chars, 4, -1) == Some(2);
  }

  /** Every step inside the loop succeeds and stays inside it. */
  lemma EvenLoopStep(chars: seq<char>, m: Machine)
    requires chars == "+[++]" && InEvenLoop(m)
    ensures WellFormed(m) && !Aborts(chars, m)
    ensures StepSpec(chars, m).0 == Ok(true) && InEvenLoop(StepSpec(chars, m).1)
  {
    assert chars[4] == ']' && chars[3] == '+' && chars[2] == '+';
    if m.pc == 4 {
      EvenLoopJumpsBack(chars, m);
    } else {
      StepIncrements(chars, m);
      IncrementFlipsParity(m.tape[m.cursor]);
    }
  }

  lemma EvenLoopJumpsBack(chars: seq<char>, m: Machine)
    requires chars == "+[++]" && m.cursor < |m.tape| && m.pc == 4 && m.tape[m.cursor] != 0
    ensures StepSpec(chars, m) == (Ok(true), m.(pc := 2))
  {
    EvenLoopBackMatch(chars);
    StepJumpsBack(chars, m, 3);
  }

  lemma StepJumpsBack(chars: seq<char>, m: Machine, p: nat)
    requires m.cursor < |m.tape| && m.pc < |chars| && chars[m.pc] == ']' && m.tape[m.cursor] != 0
    requires Program.BackMatch(chars, m.pc + 1, 0) == Some(p)
    ensures StepSpec(chars, m) == (Ok(true), m.(pc := m.pc - p + 1))
  {
  }

  lemma StepIncrements(chars: seq<char>, m: Machine)
    requires m.cursor < |m.tape| && m.pc < |chars| && chars[m.pc] == '+'
    ensures StepSpec(chars, m) == (Ok(true), m.(tape := m.tape[m.cursor := WrappingAdd(m.tape[m.cursor], 1)], pc := m.pc + 1))
  {
  }

  lemma {:induction false} EvenLoopSpins(chars: seq<char>, m: Machine, fuel: nat)
    requires chars == "+[++]" && InEvenLoop(m)
    ensures RunSpec(chars, m, fuel).0 == OutOfFuel
    decreases fuel
  {
    if fuel > 0 {
      EvenLoopStep(chars, m);
      EvenLoopSpins(chars, StepSpec(chars, m).1, fuel - 1);
    }
  }

  /** `+[++]` parses to an `Add(1)` followed by the loop `[Add(2)]`. */
  lemma ParsesEvenLoop(chars: seq<char>)
    requires chars == "+[++]"
    ensures CommandAst.Parsed(chars) == Ok([CommandAst.Add(1), CommandAst.Loop([CommandAst.Add(2)])])
  {
    var t := [CommandAst.Add(1), CommandAst.Loop([CommandAst.Add(2)])];
    assert CommandAst.Canonical(t) by {
      assert CommandAst.Canonical([CommandAst.Add(2)]);
    }
    assert CommandAst.Display(CommandAst.Add(1)) == "+";
    assert CommandAst.Display(CommandAst.Add(2)) == "++";
    assert CommandAst.DisplayAll([CommandAst.Add(2)]) == "++";
    assert CommandAst.Display(t[1]) == "[++]";
    assert CommandAst.DisplayAll(t) == "+" + "[++]";
    CommandAst.ParseDisplayAll(t);
  }

  /** The optimizer finding, in the interpreter's terms: from a cursor on
      an even cell, `+[++]` never halts, fails or aborts, whatever the fuel,
      yet the optimizer rewrites its loop into `Zero`. */
  lemma EvenLoopNeverHalts(chars: seq<char>, m: Machine, fuel: nat)
    requires chars == "+[++]"
    requires m.pc == 0 && m.cursor < |m.tape| && m.tape[m.cursor] as int % 2 == 0
    ensures RunSpec(chars, m, fuel).0 == OutOfFuel
    ensures CommandAst.Parsed(chars).Ok?
    ensures Optimizer.ZeroLoops(Optimizer.FromAst(CommandAst.Parsed(chars).value)) == [Optimizer.Add(1), Optimizer.Zero]
  {
    if fuel > 0 {
      IncrementFlipsParity(m.tape[m.cursor]);
      var (_, m1) := StepSpec(chars, m);
      assert m1.pc == 1 && m1.tape[m1.cursor] as int % 2 == 1;
      if fuel > 1 {
        var (_, m2) := StepSpec(chars, m1);
        assert InEvenLoop(m2);
        EvenLoopSpins(chars, m2, fuel - 2);
      }
    }
    ParsesEvenLoop(chars);
    var converted := Optimizer.FromAst([CommandAst.Add(1), CommandAst.Loop([CommandAst.Add(2)])]);
    assert converted[1] == Optimizer.Loop([Optimizer.Add(2)]) by {
      assert Optimizer.FromAst([CommandAst.Add(2)]) == [Optimizer.Add(2)];
    }
  }
}
