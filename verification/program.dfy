/**
 * The `Program` record and the operations that update it in place:
 * `init_program` (the constructor), `next_state` (`Step`), the driver loop
 * of `main` (`Run`) and `free_program` (`Free`).
 *
 * The read and write callbacks are modelled by their effect: `input` is what
 * the read callback has yet to return and `output` the values the write
 * callback has been given.
 */
module Interpreter {
  import opened Brackets
  import opened Machine

  class Program {
    var instructions: seq<char>
    /** The 16-bit program counter. */
    var pc: Word16
    var memory: array<Byte>
    /** The data pointer, as an index into `memory`. */
    var dp: int
    var input: seq<int>
    var output: seq<int>

    /**
     * `dp` is never more than one cell off the tape: a move off the tape is
     * caught by the next step, which then changes nothing.
     */
    ghost predicate Valid()
      reads this
    {
      -1 <= dp <= memory.Length
    }

    /** The current state as a value. */
    function State(): Config
      reads this, memory
    {
      Config(pc, dp, memory[..], input, output)
    }

    /** `init_program`: copy the instructions, zero the tape, both pointers at 0. */
    constructor (code: seq<char>, memorySize: nat, input: seq<int>)
      ensures instructions == code && |instructions| == |code|
      ensures pc == 0 && dp == 0
      ensures fresh(memory) && memory.Length == memorySize
      ensures forall i :: 0 <= i < memorySize ==> memory[i] == 0
      ensures this.input == input && output == []
      ensures Valid() && State() == Initial(memorySize, input)
    {
      instructions := code;
      pc := 0;
      memory := new Byte[memorySize](_ => 0);
      dp := 0;
      this.input := input;
      output := [];
    }

    /**
     * `next_state`: on a failed bounds check nothing changes and the fault is
     * returned; otherwise the new state is the one `Next` gives.
     */
    method Step() returns (fault: Option<Fault>)
      requires Valid() && BackwardScanDefined(instructions, State())
      modifies this, memory
      ensures Valid() && memory == old(memory) && instructions == old(instructions)
      ensures match Next(instructions, old(State()))
        case Stepped(c) => fault == None && State() == c
        case Aborted(f) => fault == Some(f) && State() == old(State())
    {
      if pc >= |instructions| {
        return Some(BadPc);
      }
      if dp < 0 || dp >= memory.Length {
        return Some(BadDp);
      }
      var instruction := instructions[pc];
      match instruction {
        case '>' =>
          dp := dp + 1;
        case '<' =>
          dp := dp - 1;
        case '+' =>
          memory[dp] := ToByte(memory[dp] as int + 1);
        case '-' =>
          memory[dp] := ToByte(memory[dp] as int - 1);
        case '.' =>
          output := output + [memory[dp]];
        case ',' =>
          var read := Read(input);
          memory[dp] := ToByte(read.0);
          input := read.1;
        case '[' =>
          if memory[dp] == 0 {
            var m := FindForward(instructions, pc);
            if m.Some? {
              pc := ToWord16(m.value);
            }
          }
        case ']' =>
          if memory[dp] != 0 {
            var m := FindBackward(instructions, pc);
            pc := ToWord16(m.value);
          }
        case _ =>
      }
      pc := ToWord16(pc + 1);
      return None;
    }

    /**
     * The driver loop of `main`: step while `pc` is inside the program, at
     * most `fuel` times; a failed check ends the run.
     */
    method Run(fuel: nat) returns (status: RunStatus)
      requires Valid() && ClosersMatched(instructions)
      modifies this, memory
      ensures Valid() && memory == old(memory) && instructions == old(instructions)
      ensures Exec(instructions, old(State()), fuel) == Outcome(status, State())
    {
      var steps := 0;
      while pc < |instructions|
        invariant Valid() && memory == old(memory) && instructions == old(instructions)
        invariant steps <= fuel
        invariant Exec(instructions, old(State()), fuel) == Exec(instructions, State(), fuel - steps)
        decreases fuel - steps
      {
        if steps == fuel {
          return OutOfFuel;
        }
        var fault := Step();
        if fault.Some? {
          return Crashed(fault.value);
        }
        steps := steps + 1;
      }
      return Halted;
    }

    /** `free_program`: drop the instructions, the tape and the callbacks; reset the pointers. */
    method Free()
      modifies this
      ensures instructions == [] && pc == 0 && dp == 0
      ensures fresh(memory) && memory.Length == 0
      ensures input == [] && output == old(output)
      ensures Valid()
    {
      instructions := [];
      pc := 0;
      memory := new Byte[0];
      dp := 0;
      input := [];
    }
  }

  /**
   * What `main` does with a program already loaded: initialise, run the
   * driver loop (here for at most `fuel` steps) and release the program. The
   * values written are those of the run `Exec` describes.
   */
  method Interpret(code: seq<char>, memorySize: nat, input: seq<int>, fuel: nat)
    returns (status: RunStatus, written: seq<int>)
    requires ClosersMatched(code)
    ensures Exec(code, Initial(memorySize, input), fuel).status == status
    ensures Exec(code, Initial(memorySize, input), fuel).final.output == written
    ensures status == Halted ==> Exec(code, Initial(memorySize, input), fuel).final.pc >= |code|
  {
    var program := new Program(code, memorySize, input);
    status := program.Run(fuel);
    written := program.output;
    ExecHaltsExactlyAtEnd(code, Initial(memorySize, input), fuel);
    program.Free();
  }
}
