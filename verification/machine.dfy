/**
 * The machine's semantics on values: a snapshot of the state (`Config`), the
 * single-step transition `Next` that `next_state` performs, and `Exec`, the
 * driver loop of `main` bounded by a fuel count.
 */
module Machine {
  import opened Brackets

  /** A tape cell, `uint8_t`. */
  type Byte = x: int | 0 <= x < 256

  /** The program counter, `uint16_t`. */
  type Word16 = x: int | 0 <= x < 0x1_0000

  /** Conversion of an `int` to `uint8_t`: reduction modulo 256. */
  function ToByte(x: int): Byte {
    x % 256
  }

  /** Conversion of an index to `uint16_t`: reduction modulo 65536. */
  function ToWord16(x: int): Word16 {
    x % 0x1_0000
  }

  /** The longest program whose positions all fit in the 16-bit program counter with one to spare. */
  const MaxExactLength: nat := 0xFFFF

  /** What the read callback (`getchar`) returns once the input is exhausted. */
  const EOF: int := -1

  /**
   * The mutable part of a program: the program counter, the data pointer as
   * an index into the tape, the tape, the input still to be read and the
   * values written so far.
   */
  datatype Config = Config(pc: Word16, dp: int, tape: seq<Byte>, input: seq<int>, output: seq<int>)

  /** The two fatal checks at the head of a step. */
  datatype Fault = BadPc | BadDp

  datatype StepResult = Stepped(next: Config) | Aborted(fault: Fault)

  /** Both bounds checks pass. */
  predicate InBounds(code: seq<char>, c: Config) {
    c.pc < |code| && 0 <= c.dp < |c.tape|
  }

  /**
   * The step does not reach the backward scan with no `[` to find: the source
   * scans on past index 0 in that case, which is undefined behaviour.
   */
  ghost predicate BackwardScanDefined(code: seq<char>, c: Config) {
    InBounds(code, c) && code[c.pc] == ']' && c.tape[c.dp] != 0 ==> MatchBackward(code, c.pc).Some?
  }

  /** One call of the read callback: the next input value, or EOF when there is none. */
  function Read(input: seq<int>): (int, seq<int>) {
    if input == [] then (EOF, []) else (input[0], input[1..])
  }

  /**
   * One step: check `pc` and `dp`, look up the instruction at `pc`, execute
   * it, then advance `pc` by one.
   */
  function Next(code: seq<char>, c: Config): StepResult
    requires BackwardScanDefined(code, c)
  {
    if c.pc >= |code| then Aborted(BadPc)
    else if c.dp < 0 || c.dp >= |c.tape| then Aborted(BadDp)
    else
      var cell := c.tape[c.dp];
      var executed := match code[c.pc]
        case '>' => c.(dp := c.dp + 1)
        case '<' => c.(dp := c.dp - 1)
        case '+' => c.(tape := c.tape[c.dp := ToByte(cell + 1)])
        case '-' => c.(tape := c.tape[c.dp := ToByte(cell - 1)])
        case '.' => c.(output := c.output + [cell])
        case ',' =>
          var (v, rest) := Read(c.input);
          c.(tape := c.tape[c.dp := ToByte(v)], input := rest)
        case '[' =>
          if cell > 0 then c
          else (match MatchForward(code, c.pc)
            case Some(j) => c.(pc := ToWord16(j))
            case None => c)
        case ']' =>
          if cell == 0 then c
          else c.(pc := ToWord16(MatchBackward(code, c.pc).value))
        case _ => c;
      Stepped(executed.(pc := ToWord16(executed.pc + 1)))
  }

  // ---------------------------------------------------------------------------
  // The step, arm by arm
  // ---------------------------------------------------------------------------

  /** The bounds checks come first, `pc` before `dp`, and a failed check yields no new state. */
  lemma NextChecksBoundsFirst(code: seq<char>, c: Config)
    requires BackwardScanDefined(code, c)
    ensures Next(code, c) == Aborted(BadPc) <==> c.pc >= |code|
    ensures Next(code, c) == Aborted(BadDp) <==> c.pc < |code| && (c.dp < 0 || c.dp >= |c.tape|)
    ensures Next(code, c).Stepped? <==> InBounds(code, c)
  {
  }

  /**
   * `c'` has the tape size of `c` and agrees with it on everything but `pc`
   * and the parts flagged: `dp`, the current cell, the input, the output.
   */
  ghost predicate SameExcept(c: Config, c': Config, dp: bool, cell: bool, input: bool, output: bool) {
    |c'.tape| == |c.tape| &&
    (!dp ==> c'.dp == c.dp) &&
    (!cell ==> c'.tape == c.tape) &&
    (cell ==> forall i :: 0 <= i < |c.tape| && i != c.dp ==> c'.tape[i] == c.tape[i]) &&
    (!input ==> c'.input == c.input) &&
    (!output ==> c'.output == c.output)
  }

  /** `pc` ends one past `target`, truncated to 16 bits; exactly one past for programs that fit. */
  ghost predicate ResumesAfter(code: seq<char>, c': Config, target: nat) {
    c'.pc == ToWord16(target + 1) &&
    (|code| <= MaxExactLength && target < |code| ==> c'.pc == target + 1)
  }

  /** `+` and `-` change only the current cell, by one, wrapping between 0 and 255. */
  lemma CellArithmeticWraps(code: seq<char>, c: Config)
    requires InBounds(code, c) && (code[c.pc] == '+' || code[c.pc] == '-')
    ensures Next(code, c).Stepped?
    ensures var c' := Next(code, c).next;
      && SameExcept(c, c', false, true, false, false)
      && (code[c.pc] == '+' ==> c'.tape[c.dp] == if c.tape[c.dp] == 255 then 0 else c.tape[c.dp] + 1)
      && (code[c.pc] == '-' ==> c'.tape[c.dp] == if c.tape[c.dp] == 0 then 255 else c.tape[c.dp] - 1)
      && ResumesAfter(code, c', c.pc)
  {
  }

  /** `>` and `<` change only `dp`, by one, with no bounds check at this point. */
  lemma MovesAreUnchecked(code: seq<char>, c: Config)
    requires InBounds(code, c) && (code[c.pc] == '>' || code[c.pc] == '<')
    ensures Next(code, c).Stepped?
    ensures var c' := Next(code, c).next;
      && SameExcept(c, c', true, false, false, false)
      && c'.dp == (if code[c.pc] == '>' then c.dp + 1 else c.dp - 1)
      && ResumesAfter(code, c', c.pc)
  {
  }

  /** A move off either end of the tape is caught by the data-pointer check of the next step. */
  lemma MoveOffTapeAbortsNextStep(code: seq<char>, c: Config)
    requires InBounds(code, c) && (code[c.pc] == '>' || code[c.pc] == '<')
    requires if code[c.pc] == '>' then c.dp == |c.tape| - 1 else c.dp == 0
    requires Next(code, c).next.pc < |code|
    ensures Next(code, Next(code, c).next) == Aborted(BadDp)
  {
  }

  /** `.` writes the current cell's value and changes nothing else. */
  lemma OutputWritesCell(code: seq<char>, c: Config)
    requires InBounds(code, c) && code[c.pc] == '.'
    ensures Next(code, c).Stepped?
    ensures var c' := Next(code, c).next;
      && SameExcept(c, c', false, false, false, true)
      && c'.output == c.output + [c.tape[c.dp]]
      && ResumesAfter(code, c', c.pc)
  {
  }

  /**
   * `,` consumes one input value and stores its low eight bits in the current
   * cell: a byte is stored as is, EOF as 255.
   */
  lemma InputStoresLowByte(code: seq<char>, c: Config)
    requires InBounds(code, c) && code[c.pc] == ','
    ensures Next(code, c).Stepped?
    ensures var c' := Next(code, c).next;
      && SameExcept(c, c', false, true, true, false)
      && (c.input == [] ==> c'.input == [] && c'.tape[c.dp] == 255)
      && (c.input != [] ==>
            && c'.input == c.input[1..]
            && (c'.tape[c.dp] - c.input[0]) % 256 == 0
            && (0 <= c.input[0] < 256 ==> c'.tape[c.dp] == c.input[0]))
      && ResumesAfter(code, c', c.pc)
  {
  }

  /** `[` on a nonzero cell enters the loop: only `pc` moves, to the next instruction. */
  lemma LoopOpenEnters(code: seq<char>, c: Config)
    requires InBounds(code, c) && code[c.pc] == '[' && c.tape[c.dp] != 0
    ensures Next(code, c).Stepped?
    ensures var c' := Next(code, c).next;
      && SameExcept(c, c', false, false, false, false)
      && ResumesAfter(code, c', c.pc)
  {
  }

  /** `[` on a zero cell skips the loop: `pc` ends one past the matching `]`. */
  lemma LoopOpenSkips(code: seq<char>, c: Config, j: nat)
    requires InBounds(code, c) && code[c.pc] == '[' && c.tape[c.dp] == 0
    requires IsForwardMatch(code, c.pc, j)
    ensures code[j] == ']'
    ensures Next(code, c).Stepped?
    ensures var c' := Next(code, c).next;
      && SameExcept(c, c', false, false, false, false)
      && ResumesAfter(code, c', j)
  {
    MatchForwardIff(code, c.pc, j);
    ForwardThenBackward(code, c.pc, j);
  }

  /** `[` on a zero cell with no matching `]` leaves `pc` alone before advancing it. */
  lemma LoopOpenUnmatched(code: seq<char>, c: Config)
    requires InBounds(code, c) && code[c.pc] == '[' && c.tape[c.dp] == 0
    requires NoForwardMatch(code, c.pc)
    ensures Next(code, c).Stepped?
    ensures var c' := Next(code, c).next;
      && SameExcept(c, c', false, false, false, false)
      && ResumesAfter(code, c', c.pc)
  {
    MatchForwardNoneIff(code, c.pc);
  }

  /** `]` on a zero cell leaves the loop: only `pc` moves, to the next instruction. */
  lemma LoopCloseExits(code: seq<char>, c: Config)
    requires InBounds(code, c) && code[c.pc] == ']' && c.tape[c.dp] == 0
    ensures Next(code, c).Stepped?
    ensures var c' := Next(code, c).next;
      && SameExcept(c, c', false, false, false, false)
      && ResumesAfter(code, c', c.pc)
  {
  }

  /**
   * `]` on a nonzero cell repeats the loop: `pc` ends one past the matching
   * `[`, at the first instruction of the loop body.
   */
  lemma LoopCloseRepeats(code: seq<char>, c: Config, j: nat)
    requires InBounds(code, c) && code[c.pc] == ']' && c.tape[c.dp] != 0
    requires IsBackwardMatch(code, j, c.pc)
    ensures code[j] == '['
    ensures BackwardScanDefined(code, c) && Next(code, c).Stepped?
    ensures var c' := Next(code, c).next;
      && SameExcept(c, c', false, false, false, false)
      && ResumesAfter(code, c', j)
  {
    MatchBackwardIff(code, j, c.pc);
    BackwardThenForward(code, c.pc, j);
  }

  /** Every byte that is not one of the eight opcodes only advances `pc`. */
  lemma OtherBytesAreNoOps(code: seq<char>, c: Config)
    requires InBounds(code, c)
    requires code[c.pc] !in {'>', '<', '+', '-', '.', ',', '[', ']'}
    ensures Next(code, c).Stepped?
    ensures var c' := Next(code, c).next;
      && SameExcept(c, c', false, false, false, false)
      && ResumesAfter(code, c', c.pc)
  {
  }

  /**
   * On a program longer than the counter can count, a step from position
   * 65535 on any instruction but a loop bracket wraps `pc` to 0, so the
   * driver loop starts the program over.
   */
  lemma LongProgramPcWraps(code: seq<char>, c: Config)
    requires |code| > 0xFFFF && InBounds(code, c) && c.pc == 0xFFFF
    requires code[c.pc] != '[' && code[c.pc] != ']'
    ensures Next(code, c).Stepped? && Next(code, c).next.pc == 0
  {
  }

  /** What every step keeps: tape size, `dp` within one cell of the tape, I/O only extended or consumed. */
  lemma NextPreserves(code: seq<char>, c: Config)
    requires BackwardScanDefined(code, c) && Next(code, c).Stepped?
    ensures var c' := Next(code, c).next;
      && |c'.tape| == |c.tape|
      && -1 <= c'.dp <= |c.tape|
      && c.output <= c'.output
      && |c'.input| <= |c.input| && c'.input == c.input[|c.input| - |c'.input|..]
  {
  }

  // ---------------------------------------------------------------------------
  // The driver
  // ---------------------------------------------------------------------------

  /** How a bounded run ends. */
  datatype RunStatus = Halted | Crashed(fault: Fault) | OutOfFuel

  datatype Outcome = Outcome(status: RunStatus, final: Config)

  /** The initial state: `pc` and `dp` at 0 and every cell 0. */
  function Initial(memorySize: nat, input: seq<int>): Config {
    Config(0, 0, seq(memorySize, _ => 0), input, [])
  }

  /**
   * The driver loop: step while `pc < |code|`, for at most `fuel` steps. A
   * failed check ends the run, as the source's exit does.
   */
  function Exec(code: seq<char>, c: Config, fuel: nat): Outcome
    requires ClosersMatched(code)
    decreases fuel
  {
    if c.pc >= |code| then Outcome(Halted, c)
    else if fuel == 0 then Outcome(OutOfFuel, c)
    else match Next(code, c)
      case Aborted(f) => Outcome(Crashed(f), c)
      case Stepped(c') => Exec(code, c', fuel - 1)
  }

  /**
   * The driver stops exactly when `pc >= |code|`; the only check that can fail
   * under it is the data-pointer check.
   */
  lemma {:induction false} ExecHaltsExactlyAtEnd(code: seq<char>, c: Config, fuel: nat)
    requires ClosersMatched(code)
    ensures var r := Exec(code, c, fuel);
      && (r.status == Halted <==> r.final.pc >= |code|)
      && (r.status.Crashed? ==> r.status.fault == BadDp && (r.final.dp < 0 || r.final.dp >= |r.final.tape|))
    decreases fuel
  {
    if c.pc < |code| && fuel > 0 && Next(code, c).Stepped? {
      ExecHaltsExactlyAtEnd(code, Next(code, c).next, fuel - 1);
    }
  }

  /** A run keeps the tape size and `dp` near the tape, only extends the output and only consumes input. */
  lemma {:induction false} ExecPreserves(code: seq<char>, c: Config, fuel: nat)
    requires ClosersMatched(code)
    requires -1 <= c.dp <= |c.tape|
    ensures var r := Exec(code, c, fuel).final;
      && |r.tape| == |c.tape|
      && -1 <= r.dp <= |c.tape|
      && c.output <= r.output
      && |r.input| <= |c.input| && r.input == c.input[|c.input| - |r.input|..]
    decreases fuel
  {
    if c.pc < |code| && fuel > 0 && Next(code, c).Stepped? {
      var c' := Next(code, c).next;
      NextPreserves(code, c);
      ExecPreserves(code, c', fuel - 1);
      var r := Exec(code, c', fuel - 1).final;
      assert c'.input == c.input[|c.input| - |c'.input|..];
      assert r.input == c'.input[|c'.input| - |r.input|..];
    }
  }

  /** A run that ended without running out of fuel ends the same way with any more fuel. */
  lemma {:induction false} ExecMoreFuel(code: seq<char>, c: Config, fuel: nat, more: nat)
    requires ClosersMatched(code)
    requires Exec(code, c, fuel).status != OutOfFuel
    requires fuel <= more
    ensures Exec(code, c, more) == Exec(code, c, fuel)
    decreases fuel
  {
    if c.pc < |code| && Next(code, c).Stepped? {
      ExecMoreFuel(code, Next(code, c).next, fuel - 1, more - 1);
    }
  }
}
