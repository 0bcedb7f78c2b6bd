/**
 * Concrete button sequences and what they show. Where a scenario depends on
 * the runtime's `parseFloat` or `String(number)`, the values it needs are
 * stated as preconditions on the runtime, nothing more.
 */
module CalculatorScenarios {
  import opened Numerics
  import opened Calculator
  import opened CalculatorProperties

  /** 5 + 3 = shows 8 and logs "5 + 3 = 8". */
  lemma FivePlusThree(h: Host)
    requires h.parse("5") == 5.0 && h.parse("3") == 3.0
    requires h.format(5.0) == "5" && h.format(3.0) == "3" && h.format(8.0) == "8"
    ensures var r := Run(h, Initial, [Digit('5'), Operator(PLUS), Digit('3'), Equals]);
      && r.display == "8" && r.history == ["5 + 3 = 8"]
      && r.previousValue.None? && r.operator.None? && r.error.None? && r.waitingForOperand
  {
    var s1 := Apply(h, Initial, Digit('5'));
    var s2 := Apply(h, s1, Operator(PLUS));
    var s3 := Apply(h, s2, Digit('3'));
    assert s3.previousValue == Some(5.0) && s3.display == "3";
    var s4 := Apply(h, s3, Equals);
    assert HistoryEntry(h, 5.0, PLUS, 3.0, 8.0) == "5 + 3 = 8";
    assert s4.history == ["5 + 3 = 8"];
    RunCons(h, Initial, Digit('5'), [Operator(PLUS), Digit('3'), Equals]);
    RunCons(h, s1, Operator(PLUS), [Digit('3'), Equals]);
    RunCons(h, s2, Digit('3'), [Equals]);
    RunCons(h, s3, Equals, []);
  }

  /** 5 ÷ 0 = enters the divide-by-zero error, shows "0" and drops the pending division. */
  lemma FiveDividedByZero(h: Host)
    requires h.parse("5") == 5.0 && h.parse("0") == 0.0
    ensures var r := Run(h, Initial, [Digit('5'), Operator(DIVIDE), Digit('0'), Equals]);
      && r.error == Some(DivideByZero) && r.display == "0"
      && r.previousValue.None? && r.operator.None? && r.history == []
  {
    var s1 := Apply(h, Initial, Digit('5'));
    var s2 := Apply(h, s1, Operator(DIVIDE));
    var s3 := Apply(h, s2, Digit('0'));
    assert s3.previousValue == Some(5.0) && s3.display == "0" && s3.operator == Some(DIVIDE);
    RunCons(h, Initial, Digit('5'), [Operator(DIVIDE), Digit('0'), Equals]);
    RunCons(h, s1, Operator(DIVIDE), [Digit('0'), Equals]);
    RunCons(h, s2, Digit('0'), [Equals]);
    RunCons(h, s3, Equals, []);
  }

  /** The square root of -4 is an invalid input; the next digit starts afresh. */
  lemma SqrtOfNegativeRecovers(h: Host)
    requires h.parse("4") == 4.0 && h.format(-4.0) == "-4" && h.parse("-4") == -4.0
    ensures var r := Run(h, Initial, [Digit('4'), ToggleSign, Fn(SQRT)]);
      r.error == Some(InvalidInput) && r.display == "0"
    ensures var r := Run(h, Initial, [Digit('4'), ToggleSign, Fn(SQRT), Digit('7')]);
      r.error.None? && r.display == "7"
  {
    var s1 := Apply(h, Initial, Digit('4'));
    var s2 := Apply(h, s1, ToggleSign);
    assert s2.display == "-4";
    var s3 := Apply(h, s2, Fn(SQRT));
    RunCons(h, Initial, Digit('4'), [ToggleSign, Fn(SQRT)]);
    RunCons(h, s1, ToggleSign, [Fn(SQRT)]);
    RunCons(h, s2, Fn(SQRT), []);
    RunCons(h, Initial, Digit('4'), [ToggleSign, Fn(SQRT), Digit('7')]);
    RunCons(h, s1, ToggleSign, [Fn(SQRT), Digit('7')]);
    RunCons(h, s2, Fn(SQRT), [Digit('7')]);
    RunCons(h, s3, Digit('7'), []);
  }

  /**
   * 4 M+ 9 M+ MR: M+ leaves the entry open, so the 9 extends "4" to "49" and
   * the register ends at 4 + 49 = 53.
   */
  lemma MemoryAddThenDigitExtends(h: Host)
    requires h.parse("4") == 4.0 && h.parse("49") == 49.0
    ensures var r := Run(h, Initial, [Digit('4'), Mem(MPLUS), Digit('9'), Mem(MPLUS), Mem(MR)]);
      r.memory == 53.0 && r.display == h.format(53.0) && r.waitingForOperand
  {
    var s1 := Apply(h, Initial, Digit('4'));
    var s2 := Apply(h, s1, Mem(MPLUS));
    assert s2.memory == 4.0 && s2.display == "4";
    var s3 := Apply(h, s2, Digit('9'));
    assert s3.display == "49";
    var s4 := Apply(h, s3, Mem(MPLUS));
    assert s4.memory == 53.0;
    var s5 := Apply(h, s4, Mem(MR));
    RunCons(h, Initial, Digit('4'), [Mem(MPLUS), Digit('9'), Mem(MPLUS), Mem(MR)]);
    RunCons(h, s1, Mem(MPLUS), [Digit('9'), Mem(MPLUS), Mem(MR)]);
    RunCons(h, s2, Digit('9'), [Mem(MPLUS), Mem(MR)]);
    RunCons(h, s3, Mem(MPLUS), [Mem(MR)]);
    RunCons(h, s4, Mem(MR), []);
  }

  /** 0 0 5 shows "5", not "005". */
  lemma NoLeadingZeros(h: Host)
    ensures Run(h, Initial, [Digit('0'), Digit('0'), Digit('5')]).display == "5"
  {
  }

  /** . . shows "0." with a single point. */
  lemma DecimalTwice(h: Host)
    ensures Run(h, Initial, [Decimal, Decimal]).display == "0."
  {
  }

  /** After 25 completed calculations only the newest 20 entries are persisted, oldest first. */
  lemma TwentyFiveEntriesPersistTwenty(history: seq<string>)
    requires |history| == 25
    ensures PersistedHistory(history) == history[5..]
  {
  }
}
