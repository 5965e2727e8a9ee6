/**
 * Three complete runs of small programs on a one-cell tape, each worked out
 * step by step from the initial state.
 */
module Scenarios {
  import opened Brackets
  import opened Machine

  /** `++.` writes the single value 2 and halts after three steps. */
  lemma IncrementAndWrite()
    ensures ClosersMatched("++.")
    ensures Exec("++.", Initial(1, []), 3) == Outcome(Halted, Config(3, 0, [2], [], [2]))
  {
  }

  /** `+[-]` clears the cell it set, writes nothing and halts after four steps. */
  lemma ClearLoop()
    ensures ClosersMatched("+[-]")
    ensures Exec("+[-]", Initial(1, []), 4) == Outcome(Halted, Config(4, 0, [0], [], []))
  {
    var code := "+[-]";
    assert ScanBackward(code, 1, 1) == Some(1);
    assert MatchBackward(code, 3) == Some(1);
    var c1 := Config(1, 0, [1], [], []);
    var c2 := Config(2, 0, [1], [], []);
    var c3 := Config(3, 0, [0], [], []);
    var c4 := Config(4, 0, [0], [], []);
    assert Next(code, Initial(1, [])) == Stepped(c1);
    assert Next(code, c1) == Stepped(c2);
    assert Next(code, c2) == Stepped(c3);
    assert Next(code, c3) == Stepped(c4);
    assert Exec(code, c3, 1) == Outcome(Halted, c4);
    assert Exec(code, c2, 2) == Outcome(Halted, c4);
  }

  /** `+++[.-]` writes 3, 2 and 1, in that order, and halts after thirteen steps. */
  lemma Countdown()
    ensures ClosersMatched("+++[.-]")
    ensures Exec("+++[.-]", Initial(1, []), 13) == Outcome(Halted, Config(7, 0, [0], [], [3, 2, 1]))
  {
    var code := "+++[.-]";
    assert ScanBackward(code, 3, 1) == Some(3);
    assert MatchBackward(code, 6) == Some(3);
    var c1 := Config(1, 0, [1], [], []);
    var c2 := Config(2, 0, [2], [], []);
    var c3 := Config(3, 0, [3], [], []);
    var c4 := Config(4, 0, [3], [], []);
    var c5 := Config(5, 0, [3], [], [3]);
    var c6 := Config(6, 0, [2], [], [3]);
    var c7 := Config(4, 0, [2], [], [3]);
    var c8 := Config(5, 0, [2], [], [3, 2]);
    var c9 := Config(6, 0, [1], [], [3, 2]);
    var c10 := Config(4, 0, [1], [], [3, 2]);
    var c11 := Config(5, 0, [1], [], [3, 2, 1]);
    var c12 := Config(6, 0, [0], [], [3, 2, 1]);
    var c13 := Config(7, 0, [0], [], [3, 2, 1]);
    assert Next(code, Initial(1, [])) == Stepped(c1);
    assert Next(code, c1) == Stepped(c2);
    assert Next(code, c2) == Stepped(c3);
    assert Next(code, c3) == Stepped(c4);
    assert Next(code, c4) == Stepped(c5);
    assert Next(code, c5) == Stepped(c6);
    assert Next(code, c6) == Stepped(c7);
    assert Next(code, c7) == Stepped(c8);
    assert Next(code, c8) == Stepped(c9);
    assert Next(code, c9) == Stepped(c10);
    assert Next(code, c10) == Stepped(c11);
    assert Next(code, c11) == Stepped(c12);
    assert Next(code, c12) == Stepped(c13);
    assert Exec(code, c12, 1) == Outcome(Halted, c13);
    assert Exec(code, c11, 2) == Outcome(Halted, c13);
    assert Exec(code, c10, 3) == Outcome(Halted, c13);
    assert Exec(code, c9, 4) == Outcome(Halted, c13);
    assert Exec(code, c8, 5) == Outcome(Halted, c13);
    assert Exec(code, c7, 6) == Outcome(Halted, c13);
    assert Exec(code, c6, 7) == Outcome(Halted, c13);
    assert Exec(code, c5, 8) == Outcome(Halted, c13);
    assert Exec(code, c4, 9) == Outcome(Halted, c13);
    assert Exec(code, c3, 10) == Outcome(Halted, c13);
    assert Exec(code, c2, 11) == Outcome(Halted, c13);
    assert Exec(code, c1, 12) == Outcome(Halted, c13);
  }

  /**
   * `<` as the last instruction moves `dp` off the tape, and nothing catches
   * it: the driver stops because `pc` has reached the end.
   */
  lemma MoveOffTapeAtEnd()
    ensures ClosersMatched("<")
    ensures Exec("<", Initial(1, []), 1) == Outcome(Halted, Config(1, -1, [0], [], []))
  {
  }

  /** `<+` moves `dp` off the tape; the next step's data-pointer check stops the run there. */
  lemma MoveOffTapeThenStep()
    ensures ClosersMatched("<+")
    ensures Exec("<+", Initial(1, []), 2) == Outcome(Crashed(BadDp), Config(1, -1, [0], [], []))
  {
  }
}
