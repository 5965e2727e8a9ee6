# A Brainfuck machine in Dafny

This project models the core of a small Brainfuck interpreter written in C.
The model covers:
- the `Program` record;
- `init_program`, which builds the initial state;
- `next_state`, the single-step transition, including its run-time bracket scans;
- the driver loop in `main` that steps until the program counter runs off the end;
- `free_program`, which resets the record.

The machine state has these parts:
- the instruction bytes;
- a 16-bit program counter `pc`;
- a tape of unsigned 8-bit cells;
- a data pointer `dp`, modelled as an integer index into the tape;
- the two I/O callbacks.

A step does three things in order:
1. It checks `pc` and `dp` against their bounds. Either failure is fatal.
2. It executes the instruction at `pc`. Any byte other than the eight opcodes does nothing.
3. It advances `pc` by one, unconditionally.

The loop instructions find their partner at run time. `[` on a zero cell scans forward with a depth counter and lands `pc` on the matching `]`. `]` on a nonzero cell scans backward and lands `pc` on the matching `[`. In both cases the final `+1` steps past the bracket.

Files:

- `brackets.dfy` (module `Brackets`):
  - The scans, written as functions: `ScanForward`/`MatchForward` and `ScanBackward`/`MatchBackward`.
  - The loops that compute them: `FindForward` and `FindBackward`.
  - A declarative meaning built on `Depth`, the number of `[` minus the number of `]` in a slice. A forward match is the first position where the depth since the `[` returns to zero. A backward match is the last such position before the `]`.
  - Proofs that the two scans are mutual inverses, and that neither scan fails on a balanced program.
- `machine.dfy` (module `Machine`):
  - The state as a value (`Config`), with cells of type `Byte` (0..255) and a `Word16` program counter.
  - `Next`, the step, which follows the source's `switch` arm by arm.
  - `Exec`, the driver loop bounded by fuel.
  - One lemma per arm, and run-level invariants.
- `scenarios.dfy` (module `Scenarios`): complete runs of small programs, worked out step by step.
- `program.dfy` (module `Interpreter`):
  - The `Program` class. It has fields and an `array` tape that are updated in place.
  - `Step`, `Run` and `Free`, proved against `Next` and `Exec`.
  - `Interpret`, which is `main` without the argument and file handling.

Every cell is in 0..255 in every reachable state, because the tape's element type is `Byte`. Each write to a cell is checked against that type.

The C code departs from a textbook Brainfuck interpreter in four ways, and the model follows the code:
- **Bracket matching is not done up front.** No jump table is built (`jump_index` is declared but never filled), and an unbalanced program is not rejected in advance.
- **An unmatched `[` is not an error.** On a zero cell, an unmatched `[` leaves `pc` where it was and then advances it.
- **An unmatched `]` is undefined behaviour.** On a nonzero cell, an unmatched `]` makes the backward scan run past index 0.
- **A move off the tape is not caught at once.** `>` and `<` are not bounds-checked. A move off the tape is caught only by the next step's check. If the move was the last instruction, the run ends normally with `dp` off the tape (`Scenarios.MoveOffTapeAtEnd`).

## Model

| member | source | states |
|---|---|---|
| `Brackets.FindForward` | src/bf.c:131-143 | the forward loop (counter up on `[`, down on `]`, stop when it returns to 0) returns exactly the forward match, or nothing when the end is reached |
| `Brackets.ScanForwardCorrect` | src/bf.c:133-143 | while its counter has stayed positive, the forward scan returns a position that is a forward match, or reports no match only when the depth stays positive to the end; so on a program shorter than 2^32 bytes the unsigned counter never wraps below zero |
| `Brackets.MatchForwardIff` | src/bf.c:127-145 | for a `[` at `p`, the forward scan returns `j` if and only if `j` is the first position where the depth since `p` returns to zero |
| `Brackets.MatchForwardNoneIff` | src/bf.c:133-144 | the forward scan finds nothing if and only if the depth since the `[` stays positive to the end of the program |
| `Brackets.FindBackward` | src/bf.c:150-162 | the backward loop (counter up on `]`, down on `[`, stop when it returns to 0) returns exactly the backward match; "nothing" stands for running past index 0 |
| `Brackets.ScanBackwardCorrect` | src/bf.c:152-162 | while its counter has stayed positive, the backward scan returns a backward match, or reports no match only when every slice ending at the `]` has negative depth |
| `Brackets.MatchBackwardIff` | src/bf.c:146-164 | for a `]` at `q`, the backward scan returns `j` if and only if `j` is the last position at or before `q` where the depth up to `q` is zero |
| `Brackets.MatchBackwardNoneIff` | src/bf.c:152-163 | the backward scan finds nothing if and only if every slice ending at the `]` has more `]` than `[` |
| `Brackets.ForwardThenBackward` | src/bf.h:14-15 | the forward scan from a `[` lands on a `]` whose backward scan leads back to that same `[` |
| `Brackets.BackwardThenForward` | src/bf.h:14-15 | the backward scan from a `]` lands on a `[` whose forward scan leads back to that same `]`; with the row above, the two scans are mutual inverses, which is what a jump index would have to satisfy |
| `Brackets.BalancedIsMatched` | src/bf.c:144-163 | on a balanced program (no prefix has more `]` than `[`, and the totals are equal), neither scan ever comes back without a match |
| `Machine.NextChecksBoundsFirst` | src/bf.c:96-105 | a step aborts if and only if `pc >= count` (reported first) or `dp` is outside `[0, memory_size)`; an aborted step yields no new state |
| `Machine.CellArithmeticWraps` | src/bf.c:115-120 | `+`/`-` change only the current cell, by +1/-1, with 255+1 = 0 and 0-1 = 255; `dp`, the other cells and I/O are unchanged, and `pc` advances by one |
| `Machine.MovesAreUnchecked` | src/bf.c:109-114 | `>`/`<` change only `dp`, by +1/-1, even off the tape; nothing else changes, and `pc` advances by one |
| `Machine.MoveOffTapeAbortsNextStep` | src/bf.c:102-105 | after a move off either end of the tape, the next step aborts on the data-pointer check |
| `Machine.OutputWritesCell` | src/bf.c:121-123 | `.` appends the current cell's value to the output and changes nothing else |
| `Machine.InputStoresLowByte` | src/bf.c:124-126 | `,` consumes one input value and stores it modulo 256: a byte is stored unchanged, and end of input (EOF, -1) is stored as 255 |
| `Machine.LoopOpenEnters` | src/bf.c:127-130 | `[` on a nonzero cell only advances `pc` by one |
| `Machine.LoopOpenSkips` | src/bf.c:131-145 | `[` on a zero cell moves `pc` to one past its forward match, which is a `]`; nothing else changes |
| `Machine.LoopOpenUnmatched` | src/bf.c:133-145 | `[` on a zero cell with no forward match leaves `pc` where it was before the final advance by one |
| `Machine.LoopCloseExits` | src/bf.c:146-149 | `]` on a zero cell only advances `pc` by one |
| `Machine.LoopCloseRepeats` | src/bf.c:150-164 | `]` on a nonzero cell moves `pc` to one past its backward match, which is a `[`, so execution resumes at the first instruction of the loop body |
| `Machine.OtherBytesAreNoOps` | src/bf.c:165-169 | any byte other than the eight opcodes only advances `pc` by one |
| `Machine.LongProgramPcWraps` | src/bf.h:17-18 | on a program longer than 65535 bytes, a step at position 65535 on any instruction other than `[` or `]` wraps the 16-bit `pc` back to 0 |
| `Machine.NextPreserves` | src/bf.h:63-69 | a step keeps the tape size, leaves `dp` at most one cell off the tape, only appends to the output and only consumes input |
| `Machine.ExecHaltsExactlyAtEnd` | src/bf.c:180-182 | the driver halts if and only if `pc >= count`; a run can be cut short only by the data-pointer check, never by the program-counter check |
| `Machine.ExecPreserves` | src/bf.c:180-182 | over a whole run, the tape size is kept, `dp` stays within one cell of the tape, the output only grows and the input is only consumed from the front |
| `Machine.ExecMoreFuel` | src/bf.c:180-182 | a run that ended within its step bound ends in the same way with any larger bound |
| `Scenarios.IncrementAndWrite` | src/bf.c:107-169 | `++.` on a one-cell tape writes exactly the value 2 and halts |
| `Scenarios.ClearLoop` | src/bf.c:107-169 | `+[-]` ends with the cell at 0 and nothing written |
| `Scenarios.Countdown` | src/bf.c:107-169 | `+++[.-]` writes 3, 2, 1, in that order, and halts |
| `Scenarios.MoveOffTapeAtEnd` | src/bf.c:180-182 | with `dp` taken as a flat address, a final `<` leaves `dp` at -1, and the run still halts normally |
| `Scenarios.MoveOffTapeThenStep` | src/bf.c:102-105 | `<+` stops on the data-pointer check, with the cell untouched |
| `Interpreter.Program.constructor` | src/bf.c:16-37 | after `init_program`: `pc == 0`, `dp == 0`, a fresh zeroed tape of the given size, the stored instructions equal to the input bytes, and no output yet |
| `Interpreter.Program.Step` | src/bf.c:95-170 | `next_state` in place: on a failed check it returns the fault and changes nothing; otherwise the new state is exactly `Next` of the old one, and the `dp` invariant is kept |
| `Interpreter.Program.Run` | src/bf.c:180-182 | the in-place driver loop ends in the state and with the status that `Exec` gives for the starting state |
| `Interpreter.Program.Free` | src/bf.c:81-92 | `free_program` empties the instructions and the tape, zeroes `pc` and `dp` and drops the read callback; values already written stay written |
| `Interpreter.Interpret` | src/bf.c:177-184 | `main` on a loaded program reports the status and output of `Exec` from the initial state, and halts only with `pc` past the end |

## Left out

- `init_program_from_file`: this is file I/O (`fopen`, `fseek`, `ftell`, `fread`, `fclose`). The model starts from the byte sequence it would produce.
- `main`'s argument handling, `printf` and `atoi`: this is command-line plumbing. `Interpret` takes the instructions and the memory size directly.
- The `malloc`/`calloc`/`memcpy` failure branches: allocation always succeeds in the model.
- `exit(EXIT_FAILURE)` in the checks: a failed check becomes the `Aborted` result of `Next`, the fault returned by `Step`, or the `Crashed` status of a run.
- `getchar` and `putchar`: the read callback becomes a finite input sequence, and the write callback becomes an output log. At end of input the read callback yields EOF (-1), as `getchar` does.
- The return value of the write callback: the source ignores it.
- `free`: the model replaces the tape by a fresh empty array instead of releasing it.
- The `jump_index` field: it is declared but never allocated or filled, so it is not a field of the model. Its defining property appears only as the two inverse lemmas.
- `pc < 0` in the program-counter check: it is always false for an unsigned counter.
- The 32-bit counters of the scans: they are modelled as unbounded integers. `ScanForwardCorrect` and `ScanBackwardCorrect` show that each counter stays positive until its match, so on a program shorter than 2^32 bytes neither can wrap below zero.
- The 32-bit loop index `i` of the scans (src/bf.c:133, src/bf.c:152): it is modelled as an unbounded integer. On a program of 2^32 bytes or more, the forward index wraps to 0 and `i < instruction_count` never fails, so the C scan starts over from the beginning; `ScanForward` instead stops at the end.
- Pointer arithmetic off the tape: `<` at cell 0 (src/bf.c:113) forms a pointer before `memory`, and the check at src/bf.c:102 compares it with `<`; the C standard leaves both undefined. The model treats `dp` as a plain integer address, so it reads -1 as "before the tape". The normal halt of `Scenarios.MoveOffTapeAtEnd` and the crash of `Scenarios.MoveOffTapeThenStep` are what a flat address space gives, not something the C code guarantees.
- `Interpreter.Program.Step` and `Machine.Next` require the backward scan to have a `[` to find. Without one, the source's scan index (unsigned, tested with `i >= 0`) wraps below zero and reads outside the instructions, which is undefined behaviour.
- `Interpreter.Program.Run`, `Machine.Exec` and `Interpreter.Interpret` require every `]` to have a backward match (`ClosersMatched`). This holds for every balanced program (`BalancedIsMatched`).
- `Interpreter.Program.Run`, `Machine.Exec` and `Interpreter.Interpret` stop after `fuel` steps with the status `OutOfFuel`. The source's loop has no bound and may run forever.
- The arm lemmas in `Machine` state the exact next `pc` only for programs of at most 65535 bytes. In general they state it truncated to 16 bits, which is what `Next` computes for any length.
