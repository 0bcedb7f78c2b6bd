/**
 * Properties of the calculator state machine that relate several steps or
 * several actions: what typing a number shows, which states an action keeps,
 * how the error state is entered and left, and that a chain of operators is
 * evaluated strictly left to right.
 */
module CalculatorProperties {
  import opened Numerics
  import opened Calculator

  /** The well-formedness every reachable state has. */
  predicate Valid(s: State) {
    PendingPaired(s) && |s.display| > 0 && SingleDot(s.display)
  }

  lemma InitialValid()
    ensures Valid(Initial)
  {
  }

  /** What `String(number)` prints is a valid display. */
  lemma FormattedIsPlain(h: Host, x: real)
    requires FormatsPlainly(h)
    ensures |h.format(x)| > 0 && SingleDot(h.format(x))
  {
  }

  /** Every action keeps a state valid, whatever the runtime's numbers are, as long as `String(number)` prints plainly. */
  lemma ApplyKeepsValid(h: Host, s: State, a: Action)
    requires FormatsPlainly(h) && Valid(s)
    ensures Valid(Apply(h, s, a))
  {
    var r := Apply(h, s, a);
    var v := h.parse(s.display);
    match a
    case Digit(d) =>
      if r.display != [d] {
        assert r.display == s.display + [d];
        forall i, j | 0 <= i < j < |r.display| && r.display[i] == '.'
          ensures r.display[j] != '.'
        {
          if j == |s.display| {
            assert r.display[j] == d;
          } else {
            assert r.display[i] == s.display[i] && r.display[j] == s.display[j];
          }
        }
      }
    case Decimal =>
    case Operator(op) =>
      if s.error.None? && s.previousValue.Some? && s.operator.Some? {
        var c := Calculate(h, s.previousValue.value, v, s.operator.value);
        if c.Some? {
          FormattedIsPlain(h, c.value);
        }
      }
    case Equals =>
      if s.error.None? && s.previousValue.Some? && s.operator.Some? {
        var c := Calculate(h, s.previousValue.value, v, s.operator.value);
        if c.Some? {
          FormattedIsPlain(h, c.value);
        }
      }
    case Clear =>
    case ClearAll =>
    case ToggleSign =>
      FormattedIsPlain(h, -v);
    case Percent =>
      FormattedIsPlain(h, v / 100.0);
    case Fn(name) =>
      if s.error.None? && IsScientificFunction(name) {
        var c := ScientificResult(h, name, v);
        if c.Some? {
          FormattedIsPlain(h, c.value);
        }
      }
    case Mem(op) =>
      FormattedIsPlain(h, s.memory);
  }

  /** Every state reached from a valid one by any session is valid. */
  lemma {:induction false} RunKeepsValid(h: Host, s: State, acts: seq<Action>)
    requires FormatsPlainly(h) && Valid(s)
    ensures Valid(Run(h, s, acts))
    decreases |acts|
  {
    if acts != [] {
      ApplyKeepsValid(h, s, acts[0]);
      RunKeepsValid(h, Apply(h, s, acts[0]), acts[1..]);
    }
  }

  /** Sessions compose: running `a + b` is running `a`, then `b`. */
  lemma {:induction false} RunAppend(h: Host, s: State, a: seq<Action>, b: seq<Action>)
    ensures Run(h, s, a + b) == Run(h, Run(h, s, a), b)
    decreases |a|
  {
    if a == [] {
      assert a + b == b;
    } else {
      assert (a + b)[0] == a[0];
      assert (a + b)[1..] == a[1..] + b;
      RunAppend(h, Apply(h, s, a[0]), a[1..], b);
    }
  }

  // ---------------------------------------------------------------------------
  // Typing a number

  /** The actions for pressing the digit buttons `ds` in order. */
  function DigitActions(ds: seq<DigitChar>): seq<Action> {
    seq(|ds|, i requires 0 <= i < |ds| => Digit(ds[i]))
  }

  /**
   * The text a fresh number typed as `ds` shows: the digits with their leading
   * zeros dropped, keeping at least one.
   */
  function Canonical(ds: seq<DigitChar>): (r: string)
    requires |ds| > 0
    ensures 0 < |r| <= |ds| && r == ds[|ds| - |r|..]
    ensures |r| == 1 || r[0] != '0'
    ensures forall i :: 0 <= i < |ds| - |r| ==> ds[i] == '0'
  {
    if |ds| == 1 || ds[0] != '0' then ds else Canonical(ds[1..])
  }

  /** Digits typed into an open operand other than "0" are appended one by one. */
  lemma {:induction false} TypingExtends(h: Host, s: State, ds: seq<DigitChar>)
    requires s.error.None? && !s.waitingForOperand && |s.display| > 0 && s.display != "0"
    ensures Run(h, s, DigitActions(ds)) == s.(display := s.display + ds)
    decreases |ds|
  {
    if ds == [] {
      assert s.display + ds == s.display;
    } else {
      var s1 := Apply(h, s, Digit(ds[0]));
      assert s1 == s.(display := s.display + [ds[0]]);
      assert DigitActions(ds)[1..] == DigitActions(ds[1..]);
      TypingExtends(h, s1, ds[1..]);
      assert s.display + [ds[0]] + ds[1..] == s.display + ds;
    }
  }

  /** Digits typed onto a lone "0" never leave a leading zero. */
  lemma {:induction false} TypingFromZero(h: Host, s: State, ds: seq<DigitChar>)
    requires s.error.None? && !s.waitingForOperand && s.display == "0"
    ensures Run(h, s, DigitActions(ds)) == s.(display := if ds == [] then "0" else Canonical(ds))
    decreases |ds|
  {
    if ds != [] {
      var s1 := Apply(h, s, Digit(ds[0]));
      assert s1 == s.(display := [ds[0]]);
      assert DigitActions(ds)[1..] == DigitActions(ds[1..]);
      if ds[0] == '0' {
        assert s1 == s;
        TypingFromZero(h, s1, ds[1..]);
      } else {
        TypingExtends(h, s1, ds[1..]);
        assert [ds[0]] + ds[1..] == ds;
      }
    }
  }

  /**
   * After an error or a finished operand, typing `ds` starts a fresh number:
   * the display shows `Canonical(ds)`, the error is gone and the entry is open.
   */
  lemma TypingFreshOperand(h: Host, s: State, ds: seq<DigitChar>)
    requires s.error.Some? || s.waitingForOperand
    requires |ds| > 0
    ensures Run(h, s, DigitActions(ds)) == s.(display := Canonical(ds), error := None, waitingForOperand := false)
  {
    var s1 := Apply(h, s, Digit(ds[0]));
    assert s1 == s.(display := [ds[0]], error := None, waitingForOperand := false);
    assert DigitActions(ds)[1..] == DigitActions(ds[1..]);
    if ds[0] == '0' {
      TypingFromZero(h, s1, ds[1..]);
    } else {
      TypingExtends(h, s1, ds[1..]);
      assert [ds[0]] + ds[1..] == ds;
    }
  }

  /** A second decimal point changes nothing: pressing "." twice is pressing it once. */
  lemma DecimalIdempotent(h: Host, s: State)
    ensures Apply(h, Apply(h, s, Decimal), Decimal) == Apply(h, s, Decimal)
  {
  }

  // ---------------------------------------------------------------------------
  // The error state

  /** While an error is shown, operator, `=`, sign, percent and every scientific function change nothing. */
  lemma ErrorBlocks(h: Host, s: State, a: Action)
    requires s.error.Some?
    requires a.Operator? || a.Equals? || a.ToggleSign? || a.Percent? || a.Fn?
    ensures Apply(h, s, a) == s
  {
  }

  /**
   * Memory operations are not blocked by an error: the error and the pending
   * operation stay, but MR still replaces the display.
   */
  lemma MemoryIgnoresError(h: Host, s: State, op: string)
    requires s.error.Some?
    ensures var r := Apply(h, s, Mem(op));
      && r.error == s.error && r.previousValue == s.previousValue && r.operator == s.operator
      && (op == MR ==> r.display == h.format(s.memory))
  {
  }

  /** The error state is left exactly by a digit, a decimal point, clear or a full reset. */
  lemma ErrorExit(h: Host, s: State, a: Action)
    requires s.error.Some?
    ensures Apply(h, s, a).error.None? <==> a.Digit? || a.Decimal? || a.Clear? || a.ClearAll?
  {
  }

  /**
   * The error state is entered exactly on a division by zero (by an operator
   * press that evaluates, by `=`, or by 1/x of zero) or on a domain violation
   * of sqrt, log or ln; it always shows "0".
   */
  lemma ErrorEntry(h: Host, s: State, a: Action)
    requires s.error.None?
    ensures var r := Apply(h, s, a);
      var v := h.parse(s.display);
      && (r.error == Some(DivideByZero) <==>
            || (a.Operator? && s.previousValue.Some? && s.operator == Some(DIVIDE) && !s.waitingForOperand && v == 0.0)
            || (a.Equals? && s.previousValue.Some? && s.operator == Some(DIVIDE) && v == 0.0)
            || (a == Fn(RECIPROCAL) && v == 0.0))
      && (r.error == Some(InvalidInput) <==>
            a.Fn? && ((a.name == SQRT && v < 0.0) || ((a.name == LOG || a.name == LN) && v <= 0.0)))
      && (r.error.Some? ==> r.display == "0")
  {
  }

  /** A session with no digit, decimal point or clear keeps the error and the pending operation. */
  lemma {:induction false} ErrorPersists(h: Host, s: State, acts: seq<Action>)
    requires s.error.Some?
    requires forall i :: 0 <= i < |acts| ==>
      !acts[i].Digit? && !acts[i].Decimal? && !acts[i].Clear? && !acts[i].ClearAll?
    ensures var r := Run(h, s, acts);
      r.error == s.error && r.previousValue == s.previousValue && r.operator == s.operator
    decreases |acts|
  {
    if acts != [] {
      ErrorPersists(h, Apply(h, s, acts[0]), acts[1..]);
    }
  }

  /** A domain error keeps the pending operation and marks the display as a finished operand. */
  lemma UnaryErrorKeepsPending(h: Host, s: State, name: string)
    requires s.error.None?
    requires Apply(h, s, Fn(name)).error.Some?
    ensures var r := Apply(h, s, Fn(name));
      r.previousValue == s.previousValue && r.operator == s.operator && r.waitingForOperand && r.display == "0"
  {
  }

  // ---------------------------------------------------------------------------
  // Operators and evaluation

  /** Of several operator presses in a row only the last one matters. */
  lemma LastOperatorWins(h: Host, s: State, op1: string, op2: string)
    ensures Apply(h, Apply(h, s, Operator(op1)), Operator(op2)) == Apply(h, s, Operator(op2))
  {
  }

  /** Only division is guarded: `mod` by zero is handed to the runtime's `%` and is not an error. */
  lemma ModuloByZeroIsNotAnError(h: Host, s: State)
    requires s.error.None? && s.previousValue.Some? && s.operator == Some(MODULO) && h.parse(s.display) == 0.0
    ensures Apply(h, s, Equals).error.None?
    ensures Apply(h, s, Equals).display == h.format(h.mod(s.previousValue.value, 0.0))
  {
  }

  /** An operator followed by the digits of its right operand. */
  datatype Step = Step(op: string, operand: seq<DigitChar>)

  /** Every operator is a non-empty symbol and every operand has a digit. */
  predicate WellFormedSteps(steps: seq<Step>) {
    forall i :: 0 <= i < |steps| ==> steps[i].op != "" && |steps[i].operand| > 0
  }

  /** The button presses of a chain of steps. */
  function StepActions(steps: seq<Step>): seq<Action>
    decreases |steps|
  {
    if steps == [] then [] else [Operator(steps[0].op)] + DigitActions(steps[0].operand) + StepActions(steps[1..])
  }

  /**
   * Reference semantics of an immediate-execution calculator: starting from
   * `acc`, apply each operator to the running value and the typed operand,
   * strictly left to right with no precedence; `None` if a division by zero
   * occurs anywhere.
   */
  function EvalLeftToRight(h: Host, acc: real, steps: seq<Step>): Option<real>
    requires WellFormedSteps(steps)
    decreases |steps|
  {
    if steps == [] then Some(acc)
    else
      match Calculate(h, acc, h.parse(Canonical(steps[0].operand)), steps[0].op)
      case None => None
      case Some(v) => EvalLeftToRight(h, v, steps[1..])
  }

  lemma ConsAssoc<T>(x: T, a: seq<T>, b: seq<T>, c: seq<T>)
    ensures [x] + a + b + c == [x] + (a + b + c)
  {
  }

  /** Running a session whose first action is `a`: apply `a`, then run the rest. */
  lemma RunCons(h: Host, s: State, a: Action, rest: seq<Action>)
    ensures Run(h, s, [a] + rest) == Run(h, Apply(h, s, a), rest)
  {
  }

  /** With no left operand, an operator press captures the displayed value. */
  lemma OperatorCaptures(h: Host, s: State, op: string)
    requires s.error.None? && s.previousValue.None?
    ensures Apply(h, s, Operator(op))
      == s.(previousValue := Some(h.parse(s.display)), operator := Some(op), waitingForOperand := true)
  {
  }

  /** An operator pressed after a freshly typed right operand evaluates the pending operation. */
  lemma OperatorAfterOperand(h: Host, s: State, acc: real, op: string, next: string)
    requires s.error.None? && s.previousValue == Some(acc) && s.operator == Some(op) && op != ""
    requires !s.waitingForOperand
    requires Calculate(h, acc, h.parse(s.display), op).Some?
    ensures var v := Calculate(h, acc, h.parse(s.display), op);
      Apply(h, s, Operator(next))
        == s.(display := h.format(v.value), previousValue := v, operator := Some(next), waitingForOperand := true)
  {
  }

  /** `=` pressed after a freshly typed right operand shows the result and logs one entry. */
  lemma EqualsAfterOperand(h: Host, s: State, acc: real, op: string)
    requires s.error.None? && s.previousValue == Some(acc) && s.operator == Some(op)
    requires Calculate(h, acc, h.parse(s.display), op).Some?
    ensures var v := Calculate(h, acc, h.parse(s.display), op);
      var r := Apply(h, s, Equals);
      && r.display == h.format(v.value)
      && r.error.None? && r.previousValue.None? && r.operator.None? && r.waitingForOperand
      && r.memory == s.memory && |r.history| == |s.history| + 1
  {
  }

  /** Typing a fresh operand and then running `tail` is running `tail` on the typed-in state. */
  lemma TypeThenRun(h: Host, s: State, operand: seq<DigitChar>, tail: seq<Action>)
    requires s.waitingForOperand && |operand| > 0
    ensures Run(h, s, DigitActions(operand) + tail)
      == Run(h, s.(display := Canonical(operand), error := None, waitingForOperand := false), tail)
  {
    TypingFreshOperand(h, s, operand);
    RunAppend(h, s, DigitActions(operand), tail);
  }

  /** The presses that follow a pending operator: its operand, the remaining steps, then `=`. */
  function ChainTail(chain: seq<Step>): seq<Action>
    requires |chain| > 0
  {
    DigitActions(chain[0].operand) + StepActions(chain[1..]) + [Equals]
  }

  /** The last operand of a chain followed by `=`: the result is shown and logged. */
  lemma ChainLast(h: Host, s: State, acc: real, chain: seq<Step>)
    requires |chain| == 1 && |chain[0].operand| > 0
    requires s.error.None? && s.previousValue == Some(acc) && s.operator == Some(chain[0].op) && s.waitingForOperand
    requires Calculate(h, acc, h.parse(Canonical(chain[0].operand)), chain[0].op).Some?
    ensures var r := Run(h, s, ChainTail(chain));
      && r.display == h.format(Calculate(h, acc, h.parse(Canonical(chain[0].operand)), chain[0].op).value)
      && r.error.None? && r.previousValue.None? && r.operator.None? && r.waitingForOperand
      && r.memory == s.memory && |r.history| == |s.history| + 1
  {
    var operand := chain[0].operand;
    var s1 := s.(display := Canonical(operand), waitingForOperand := false);
    ChainTailLast(chain);
    TypeThenRun(h, s, operand, [Equals] + []);
    RunCons(h, s1, Equals, []);
    EqualsAfterOperand(h, s1, acc, chain[0].op);
  }

  /**
   * An operand followed by the next operator: the pending operation is
   * evaluated and the next one becomes pending.
   */
  lemma ChainAdvance(h: Host, s: State, acc: real, chain: seq<Step>)
    requires |chain| > 1 && |chain[0].operand| > 0 && chain[0].op != ""
    requires s.error.None? && s.previousValue == Some(acc) && s.operator == Some(chain[0].op) && s.waitingForOperand
    requires Calculate(h, acc, h.parse(Canonical(chain[0].operand)), chain[0].op).Some?
    ensures var v := Calculate(h, acc, h.parse(Canonical(chain[0].operand)), chain[0].op);
      var s2 := s.(display := h.format(v.value), previousValue := v, operator := Some(chain[1].op),
                   waitingForOperand := true);
      Run(h, s, ChainTail(chain)) == Run(h, s2, ChainTail(chain[1..]))
  {
    var s1 := s.(display := Canonical(chain[0].operand), waitingForOperand := false);
    ChainTailCons(chain);
    TypeThenRun(h, s, chain[0].operand, [Operator(chain[1].op)] + ChainTail(chain[1..]));
    RunCons(h, s1, Operator(chain[1].op), ChainTail(chain[1..]));
    OperatorAfterOperand(h, s1, acc, chain[0].op, chain[1].op);
  }

  /** A one-step chain's tail is its operand followed by `=`. */
  lemma ChainTailLast(chain: seq<Step>)
    requires |chain| == 1
    ensures ChainTail(chain) == DigitActions(chain[0].operand) + ([Equals] + [])
  {
    assert chain[1..] == [];
  }

  /** After the first operand, a longer chain continues with its next operator and the rest's tail. */
  lemma ChainTailCons(chain: seq<Step>)
    requires |chain| > 1
    ensures ChainTail(chain) == DigitActions(chain[0].operand) + ([Operator(chain[1].op)] + ChainTail(chain[1..]))
  {
  }

  /** The first step of a chain that does not divide by zero leaves the rest to evaluate. */
  lemma EvalFirst(h: Host, acc: real, chain: seq<Step>)
    requires |chain| > 0 && WellFormedSteps(chain)
    requires EvalLeftToRight(h, acc, chain).Some?
    ensures WellFormedSteps(chain[1..])
    ensures var v := Calculate(h, acc, h.parse(Canonical(chain[0].operand)), chain[0].op);
      v.Some? && EvalLeftToRight(h, acc, chain) == EvalLeftToRight(h, v.value, chain[1..])
  {
    forall i | 0 <= i < |chain| - 1 ensures chain[1..][i].op != "" && |chain[1..][i].operand| > 0 {
      assert chain[1..][i] == chain[i + 1];
    }
  }

  /**
   * From a pending `acc op` awaiting its operand, where `op` and the operand
   * are the first step of `chain`: typing the chain and `=` evaluates it left
   * to right.
   */
  lemma {:induction false} PendingChain(h: Host, s: State, acc: real, chain: seq<Step>)
    requires |chain| > 0 && WellFormedSteps(chain)
    requires s.error.None? && s.previousValue == Some(acc) && s.operator == Some(chain[0].op) && s.waitingForOperand
    requires EvalLeftToRight(h, acc, chain).Some?
    ensures var r := Run(h, s, ChainTail(chain));
      && r.display == h.format(EvalLeftToRight(h, acc, chain).value)
      && r.error.None? && r.previousValue.None? && r.operator.None? && r.waitingForOperand
      && r.memory == s.memory && |r.history| == |s.history| + 1
    decreases |chain|
  {
    EvalFirst(h, acc, chain);
    var v := Calculate(h, acc, h.parse(Canonical(chain[0].operand)), chain[0].op);
    if |chain| == 1 {
      ChainLast(h, s, acc, chain);
    } else {
      ChainAdvance(h, s, acc, chain);
      var s2 := s.(display := h.format(v.value), previousValue := v, operator := Some(chain[1].op),
                   waitingForOperand := true);
      PendingChain(h, s2, v.value, chain[1..]);
    }
  }

  /**
   * A chain `x op1 y1 op2 y2 ... =` typed after a completed calculation or on a
   * fresh start shows the strictly left-to-right value of the chain and logs
   * exactly one history entry.
   */
  lemma ChainEvaluatesLeftToRight(h: Host, s: State, steps: seq<Step>)
    requires s.error.None? && s.previousValue.None?
    requires |steps| > 0 && WellFormedSteps(steps)
    requires EvalLeftToRight(h, h.parse(s.display), steps).Some?
    ensures var r := Run(h, s, StepActions(steps) + [Equals]);
      && r.display == h.format(EvalLeftToRight(h, h.parse(s.display), steps).value)
      && r.error.None? && r.previousValue.None? && r.operator.None? && r.waitingForOperand
      && r.memory == s.memory && |r.history| == |s.history| + 1
  {
    StartChain(steps);
    RunCons(h, s, Operator(steps[0].op), ChainTail(steps));
    OperatorCaptures(h, s, steps[0].op);
    var s1 := s.(previousValue := Some(h.parse(s.display)), operator := Some(steps[0].op), waitingForOperand := true);
    PendingChain(h, s1, h.parse(s.display), steps);
  }

  /** A chain's presses are its first operator followed by the chain's tail. */
  lemma StartChain(steps: seq<Step>)
    requires |steps| > 0
    ensures StepActions(steps) + [Equals] == [Operator(steps[0].op)] + ChainTail(steps)
  {
    var d, t := DigitActions(steps[0].operand), StepActions(steps[1..]);
    assert StepActions(steps) == [Operator(steps[0].op)] + d + t;
    ConsAssoc(Operator(steps[0].op), d, t, [Equals]);
  }

  // ---------------------------------------------------------------------------
  // Sign and percent

  /**
   * Pressing ± twice leaves the state as it was with the value re-printed, provided `parseFloat`
   * reads back the negated value that `String(number)` printed.
   */
  lemma ToggleSignTwice(h: Host, s: State)
    requires s.error.None?
    requires h.parse(h.format(-h.parse(s.display))) == -h.parse(s.display)
    ensures Apply(h, Apply(h, s, ToggleSign), ToggleSign) == s.(display := h.format(h.parse(s.display)))
  {
  }

  /** A percentage is a finished operand: the next digit starts a new number instead of extending it. */
  lemma PercentFinishesOperand(h: Host, s: State, d: DigitChar)
    requires s.error.None?
    ensures Apply(h, Apply(h, s, Percent), Digit(d)).display == [d]
    ensures Apply(h, Apply(h, s, Percent), Digit(d)).previousValue == s.previousValue
  {
  }

  // ---------------------------------------------------------------------------
  // Scientific functions

  /**
   * The trigonometric buttons read the display in degrees: a display of 180
   * gives the runtime's sine, cosine and tangent of π, and 90 those of π/2.
   */
  lemma TrigonometryInDegrees(h: Host, s: State)
    requires s.error.None?
    ensures h.parse(s.display) == 180.0 ==>
      && Apply(h, s, Fn(SIN)).display == h.format(h.sin(h.pi))
      && Apply(h, s, Fn(COS)).display == h.format(h.cos(h.pi))
      && Apply(h, s, Fn(TAN)).display == h.format(h.tan(h.pi))
    ensures h.parse(s.display) == 90.0 ==>
      && Apply(h, s, Fn(SIN)).display == h.format(h.sin(h.pi / 2.0))
      && Apply(h, s, Fn(COS)).display == h.format(h.cos(h.pi / 2.0))
  {
  }

  /** x² shows the same for a value and its negation, and is never negative. */
  lemma SquareIgnoresSign(h: Host, v: real)
    ensures ScientificResult(h, SQUARE, -v) == ScientificResult(h, SQUARE, v)
    ensures ScientificResult(h, SQUARE, v).value >= 0.0
  {
  }

  /** π and e do not depend on what is displayed. */
  lemma ConstantsIgnoreDisplay(h: Host, s: State, display: string, name: string)
    requires name == PI || name == E
    requires s.error.None?
    ensures Apply(h, s.(display := display), Fn(name)) == Apply(h, s, Fn(name))
  {
  }

  // ---------------------------------------------------------------------------
  // Clearing and memory

  /** `clear` keeps memory and history and forgets everything else; doing it twice is doing it once. */
  lemma ClearKeepsMemoryAndHistory(h: Host, s: State, t: State)
    ensures Apply(h, s, Clear).memory == s.memory && Apply(h, s, Clear).history == s.history
    ensures s.memory == t.memory && s.history == t.history ==> Apply(h, s, Clear) == Apply(h, t, Clear)
    ensures Apply(h, Apply(h, s, Clear), Clear) == Apply(h, s, Clear)
  {
  }

  /** The full reset forgets the whole state, memory and history included. */
  lemma ClearAllForgets(h: Host, s: State, t: State)
    ensures Apply(h, s, ClearAll) == Apply(h, t, ClearAll) == Initial
  {
  }

  /** M+ and M- leave the entry open: a following digit extends the displayed number. */
  lemma MemoryAddKeepsEntryOpen(h: Host, s: State, op: string, d: DigitChar)
    requires op == MPLUS || op == MMINUS
    requires s.error.None? && !s.waitingForOperand && s.display != "0"
    ensures Apply(h, Apply(h, s, Mem(op)), Digit(d)).display == s.display + [d]
  {
  }

  // ---------------------------------------------------------------------------
  // Persisted history

  /** Appending an entry to the log drops the oldest persisted entry once 20 are kept. */
  lemma PersistedHistoryEvictsOldest(history: seq<string>, entry: string)
    ensures PersistedHistory(history + [entry]) ==
      if |history| < PERSISTED_HISTORY then history + [entry]
      else PersistedHistory(history)[1..] + [entry]
  {
  }
}
