/** The character-level interpreter (`src/interpreter.rs`): each step reads
    the source character under the program cursor, acts on the tape, and
    jumps by bracket matching. Console output is collected in a sequence. */
module Interpreter {
  import opened Prelude
  import opened Brackets
  import Memory
  import Program

  /** Everything a step reads or writes: the tape cells, the tape cursor,
      the program cursor and the characters printed so far. */
  datatype Machine = Machine(tape: seq<u8>, cursor: nat, pc: nat, output: seq<char>)

  /** The tape cursor is on a cell, or the tape is empty and the cursor 0. */
  predicate WellFormed(m: Machine)
  {
    m.cursor < |m.tape| || (m.tape == [] && m.cursor == 0)
  }

  /** The characters whose handling reads or writes the current cell. */
  predicate TouchesTape(c: char)
  {
    c == '>' || c == '<' || c == '+' || c == '-' || c == '.' || c == '[' || c == ']'
  }

  /** The step at `m` would panic: `,` is `todo!()`, and on an empty tape
      `>` takes `%` by the length 0, `<` subtracts below 0 in `usize` (a
      panic in a build with overflow checks, which is the build modelled),
      and every other tape operation indexes a missing cell. */
  predicate Aborts(chars: seq<char>, m: Machine)
  {
    m.pc < |chars| && (chars[m.pc] == ',' || (TouchesTape(chars[m.pc]) && m.tape == []))
  }

  /** One call of `step` on the machine `m` running the source `chars`. */
  function StepSpec(chars: seq<char>, m: Machine): (r: (Result<bool, Program.InterpreterError>, Machine))
    requires WellFormed(m) && !Aborts(chars, m)
    ensures WellFormed(r.1) && |r.1.tape| == |m.tape|
  {
    if m.pc >= |chars| then (Ok(false), m)
    else
      var c := chars[m.pc];
      var next := m.pc + 1;
      if c == '>' then
        (Ok(true), m.(cursor := Memory.Wrap(m.cursor, |m.tape|, 1), pc := next))
      else if c == '<' then
        (Ok(true), m.(cursor := Memory.Wrap(m.cursor, |m.tape|, -1), pc := next))
      else if c == '+' then
        (Ok(true), m.(tape := m.tape[m.cursor := WrappingAdd(m.tape[m.cursor], 1)], pc := next))
      else if c == '-' then
        (Ok(true), m.(tape := m.tape[m.cursor := WrappingSub(m.tape[m.cursor], 1)], pc := next))
      else if c == '.' then
        (Ok(true), m.(output := m.output + [Memory.ByteChar(m.tape[m.cursor])], pc := next))
      else if c == '[' && m.tape[m.cursor] == 0 then
        match Program.ForwardMatch(chars, m.pc, 0)
        case Some(p) => (Ok(true), m.(pc := m.pc + p + 1))
        case None => (Err(Program.LoopTraversalError(m.pc)), m)
      else if c == ']' && m.tape[m.cursor] != 0 then
        match Program.BackMatch(chars, m.pc + 1, 0)
        case Some(p) => (Ok(true), m.(pc := m.pc - p + 1))
        case None => (Err(Program.LoopTraversalError(m.pc)), m)
      else
        (Ok(true), m.(pc := next))
  }

  datatype Outcome = Halted | OutOfFuel | Failed(error: Program.InterpreterError) | Aborted(pc: nat)

  /** `run` given at most `fuel` steps: it stops when a step reports the end
      of the program, when a step fails, or just before a step that would
      panic. */
  function RunSpec(chars: seq<char>, m: Machine, fuel: nat): (r: (Outcome, Machine))
    requires WellFormed(m)
    ensures WellFormed(r.1) && |r.1.tape| == |m.tape|
    decreases fuel
  {
    if fuel == 0 then (OutOfFuel, m)
    else if Aborts(chars, m) then (Aborted(m.pc), m)
    else
      var (res, m') := StepSpec(chars, m);
      match res
      case Err(e) => (Failed(e), m')
      case Ok(false) => (Halted, m')
      case Ok(true) => RunSpec(chars, m', fuel - 1)
  }

  // ---------------------------------------------------------------------
  // Properties of one step

  /** `step` reports the end exactly when the program is exhausted, and then
      changes nothing. */
  lemma StepStopsIffExhausted(chars: seq<char>, m: Machine)
    requires WellFormed(m) && !Aborts(chars, m)
    ensures StepSpec(chars, m).0 == Ok(false) <==> m.pc >= |chars|
    ensures m.pc >= |chars| ==> StepSpec(chars, m).1 == m
  {
  }

  /** A step that fails leaves the machine as it was, and only a bracket
      whose jump finds no partner fails. */
  lemma StepFailureFromJump(chars: seq<char>, m: Machine)
    requires WellFormed(m) && !Aborts(chars, m)
    requires StepSpec(chars, m).0.Err?
    ensures StepSpec(chars, m).1 == m
    ensures StepSpec(chars, m).0 == Err(Program.LoopTraversalError(m.pc))
    ensures m.pc < |chars| && (chars[m.pc] == '[' || chars[m.pc] == ']')
  {
  }

  /** A character that is not a command only advances the program cursor. */
  lemma StepIgnoresComment(chars: seq<char>, m: Machine)
    requires WellFormed(m) && m.pc < |chars|
    requires !TouchesTape(chars[m.pc]) && chars[m.pc] != ','
    ensures StepSpec(chars, m) == (Ok(true), m.(pc := m.pc + 1))
  {
  }

  /** Only `.` prints, and it prints the current cell's character without
      touching the tape; every other step keeps the output. */
  lemma StepOutput(chars: seq<char>, m: Machine)
    requires WellFormed(m) && !Aborts(chars, m)
    ensures m.pc < |chars| && chars[m.pc] == '.' ==>
              StepSpec(chars, m).1 == m.(output := m.output + [Memory.ByteChar(m.tape[m.cursor])], pc := m.pc + 1)
    ensures !(m.pc < |chars| && chars[m.pc] == '.') ==> StepSpec(chars, m).1.output == m.output
  {
  }

  /** `[` on a zero cell continues just after its matching `]`: the text
      skipped, from the `[` to that `]`, has balanced brackets. */
  lemma StepSkipsToMatch(chars: seq<char>, m: Machine)
    requires WellFormed(m) && !Aborts(chars, m)
    requires m.pc < |chars| && chars[m.pc] == '[' && m.tape[m.cursor] == 0
    requires StepSpec(chars, m).0.Ok?
    ensures var pc' := StepSpec(chars, m).1.pc;
            m.pc + 1 < pc' <= |chars| && chars[pc' - 1] == ']' && Depth(chars[m.pc..pc']) == 0
  {
    Program.SkipFindsClosing(chars, m.pc);
  }

  /** `]` on a nonzero cell continues just after its matching `[`: the text
      from that `[` to the `]` has balanced brackets. */
  lemma StepRepeatsFromMatch(chars: seq<char>, m: Machine)
    requires WellFormed(m) && !Aborts(chars, m)
    requires m.pc < |chars| && chars[m.pc] == ']' && m.tape[m.cursor] != 0
    requires StepSpec(chars, m).0.Ok?
    ensures var pc' := StepSpec(chars, m).1.pc;
            0 < pc' <= m.pc && chars[pc' - 1] == '[' && Depth(chars[pc' - 1..m.pc + 1]) == 0
  {
    Program.RepeatFindsOpening(chars, m.pc + 1);
  }

  /** A bracket whose jump is not taken falls through to the next character. */
  lemma StepFallsThrough(chars: seq<char>, m: Machine)
    requires WellFormed(m) && !Aborts(chars, m) && m.pc < |chars|
    requires (chars[m.pc] == '[' && m.tape[m.cursor] != 0) || (chars[m.pc] == ']' && m.tape[m.cursor] == 0)
    ensures StepSpec(chars, m) == (Ok(true), m.(pc := m.pc + 1))
  {
  }

  // ---------------------------------------------------------------------
  // Properties of a run

  /** A run only ever appends to the output. */
  lemma {:induction false} RunOutputExtends(chars: seq<char>, m: Machine, fuel: nat)
    requires WellFormed(m)
    ensures m.output <= RunSpec(chars, m, fuel).1.output
    decreases fuel
  {
    if fuel > 0 && !Aborts(chars, m) {
      var (res, m') := StepSpec(chars, m);
      StepOutput(chars, m);
      if res == Ok(true) {
        RunOutputExtends(chars, m', fuel - 1);
      }
    }
  }

  /** Once a run has stopped for any reason but fuel, more fuel changes
      nothing. */
  lemma {:induction false} RunMoreFuel(chars: seq<char>, m: Machine, fuel: nat, extra: nat)
    requires WellFormed(m)
    requires RunSpec(chars, m, fuel).0 != OutOfFuel
    ensures RunSpec(chars, m, fuel + extra) == RunSpec(chars, m, fuel)
    decreases fuel
  {
    if !Aborts(chars, m) {
      var (res, m') := StepSpec(chars, m);
      if res == Ok(true) {
        RunMoreFuel(chars, m', fuel - 1, extra);
      }
    }
  }

  /** A run halts without error only at the end of the program. */
  lemma {:induction false} RunHaltsAtEnd(chars: seq<char>, m: Machine, fuel: nat)
    requires WellFormed(m)
    requires RunSpec(chars, m, fuel).0 == Halted
    ensures RunSpec(chars, m, fuel).1.pc >= |chars|
    decreases fuel
  {
    var (res, m') := StepSpec(chars, m);
    StepStopsIffExhausted(chars, m);
    if res == Ok(true) {
      RunHaltsAtEnd(chars, m', fuel - 1);
    }
  }

  // ---------------------------------------------------------------------
  // The interpreter object

  class Interpreter {
    const memory: Memory.Memory
    const program: Program.Program
    var output: seq<char>

    /** The machine the fields currently hold. */
    function State(): Machine
      reads this, memory, memory.data, program
    {
      Machine(memory.data[..], memory.index, program.index, output)
    }

    /** `load_program`: `memorySize` zero cells, both cursors at 0, nothing
        printed. */
    constructor LoadProgram(source: seq<char>, memorySize: nat)
      ensures fresh(memory) && fresh(memory.data) && fresh(program)
      ensures program.chars == source
      ensures State() == Machine(seq(memorySize, _ => 0), 0, 0, [])
      ensures WellFormed(State())
    {
      memory := new Memory.Memory(memorySize);
      program := new Program.Program(source);
      output := [];
      new;
      assert memory.data[..] == seq(memorySize, _ => 0);
    }

    /** `step` */
    method Step() returns (r: Result<bool, Program.InterpreterError>)
      requires WellFormed(State()) && !Aborts(program.chars, State())
      modifies this, memory, program, memory.data
      ensures (r, State()) == StepSpec(program.chars, old(State()))
    {
      var op := program.Get();
      if op.None? {
        return Ok(false);
      }
      match op.value {
        case '>' => memory.Next();
        case '<' => memory.Previous();
        case '+' => memory.Increment();
        case '-' => memory.Decrement();
        case '.' => output := output + [memory.GetChar()];
        case '[' =>
          if memory.IsZero() {
            var jumped := program.SkipLoop();
            if jumped.Err? {
              return Err(jumped.error);
            }
          }
        case ']' =>
          if !memory.IsZero() {
            var jumped := program.RepeatLoop();
            if jumped.Err? {
              return Err(jumped.error);
            }
          }
        case _ =>
      }
      program.Next();
      return Ok(true);
    }

    /** `run` given at most `fuel` steps, stopping instead of panicking
        where a step would panic. */
    method Run(fuel: nat) returns (outcome: Outcome)
      requires WellFormed(State())
      modifies this, memory, program, memory.data
      ensures (outcome, State()) == RunSpec(program.chars, old(State()), fuel)
    {
      var remaining := fuel;
      while true
        invariant WellFormed(State())
        invariant RunSpec(program.chars, State(), remaining) == RunSpec(program.chars, old(State()), fuel)
        decreases remaining
      {
        if remaining == 0 {
          return OutOfFuel;
        }
        if Aborts(program.chars, State()) {
          return Aborted(program.index);
        }
        var more := Step();
        match more {
          case Err(e) => return Failed(e);
          case Ok(false) => return Halted;
          case Ok(true) =>
        }
        remaining := remaining - 1;
      }
    }
  }
}
