/**
 * The calculator's input-and-evaluation state machine
 * (mfos/examples/calculator/src/index.tsx).
 *
 * Every handler of the source is a React state updater `prev => next` that
 * builds a fresh record; here each one is a function from `State` to `State`,
 * and `Apply` dispatches one user action to the handler the button calls.
 */
module Calculator {
  import opened Numerics

  datatype Option<T> = None | Some(value: T)

  /**
   * The two error conditions. The source stores the translated message text of
   * `calc.error.divideByZero` or `calc.error.invalidInput`; the model keeps the key.
   */
  datatype CalcError = DivideByZero | InvalidInput

  /** A decimal digit, the argument every digit button passes to `inputDigit`. */
  type DigitChar = c: char | '0' <= c <= '9' witness '0'

  /** `CalculatorState` (types.ts); `null` becomes `None`. */
  datatype State = State(
    display: string,
    previousValue: Option<real>,
    operator: Option<string>,
    waitingForOperand: bool,
    memory: real,
    history: seq<string>,
    error: Option<CalcError>
  )

  /** One user action: which handler a button press runs, with its argument. */
  datatype Action =
    | Digit(d: DigitChar)   // inputDigit
    | Decimal               // inputDecimal
    | Operator(op: string)  // inputOperator
    | Equals                // performCalculation
    | Clear                 // clear
    | ClearAll              // clearAll
    | ToggleSign            // toggleSign
    | Percent               // percent
    | Fn(name: string)      // scientificFn
    | Mem(op: string)       // memoryOp

  // Operator symbols handled by `calculate`
  const PLUS := "+"
  const MINUS := "-"
  const TIMES := "×"
  const DIVIDE := "÷"
  const POWER := "^"
  const MODULO := "mod"

  // Function names handled by `scientificFn`
  const SIN := "sin"
  const COS := "cos"
  const TAN := "tan"
  const SQRT := "sqrt"
  const LOG := "log"
  const LN := "ln"
  const SQUARE := "x²"
  const RECIPROCAL := "1/x"
  const PI := "π"
  const E := "e"

  // Memory operations handled by `memoryOp`
  const MC := "MC"
  const MR := "MR"
  const MPLUS := "M+"
  const MMINUS := "M-"

  /** Number of history entries written to storage. */
  const PERSISTED_HISTORY := 20

  /** `initialState`. */
  const Initial := State("0", None, None, false, 0.0, [], None)

  /** A pending operator always comes with its captured left operand, and vice versa. */
  predicate PendingPaired(s: State) {
    s.previousValue.Some? <==> s.operator.Some?
  }

  predicate IsBinaryOperator(op: string) {
    op == PLUS || op == MINUS || op == TIMES || op == DIVIDE || op == POWER || op == MODULO
  }

  predicate IsScientificFunction(name: string) {
    name == SIN || name == COS || name == TAN || name == SQRT || name == LOG
    || name == LN || name == SQUARE || name == RECIPROCAL || name == PI || name == E
  }

  /** Multiplying by a non-zero real and dividing by it again gives the original value. */
  lemma MulDivCancel(a: real, b: real)
    ensures b != 0.0 ==> a * b / b == a
  {
    if b != 0.0 {
      calc {
        a * b / b;
        a * (b / b);
        a;
      }
    }
  }

  /** Dividing by a non-zero real and multiplying by it again gives the original value. */
  lemma DivMulCancel(a: real, b: real)
    ensures b != 0.0 ==> a / b * b == a
  {
    if b != 0.0 {
      calc {
        a / b * b;
        a * (b / b);
        a;
      }
    }
  }

  /**
   * `calculate`: `None` stands for the source's `null`, the division-by-zero
   * outcome. Only `÷` is guarded; `mod` by zero goes to the runtime's `%`, and
   * an operator the switch does not know yields the right operand.
   */
  function Calculate(h: Host, left: real, right: real, op: string): (r: Option<real>)
    ensures r.None? <==> op == DIVIDE && right == 0.0
    ensures op == PLUS ==> r.value - right == left
    ensures op == MINUS ==> r.value + right == left
    ensures op == DIVIDE && r.Some? ==> r.value * right == left
    ensures op == TIMES ==> r.Some? && (if right == 0.0 then r.value == 0.0 else r.value / right == left)
    ensures op == POWER ==> r == Some(h.pow(left, right))
    ensures op == MODULO ==> r == Some(h.mod(left, right))
    ensures !IsBinaryOperator(op) ==> r == Some(right)
  {
    if op == PLUS then Some(left + right)
    else if op == MINUS then Some(left - right)
    else if op == TIMES then MulDivCancel(left, right); Some(left * right)
    else if op == DIVIDE then (if right == 0.0 then None else DivMulCancel(left, right); Some(left / right))
    else if op == POWER then Some(h.pow(left, right))
    else if op == MODULO then Some(h.mod(left, right))
    else Some(right)
  }

  /** The history line `${previousValue} ${operator} ${currentValue} = ${result}`. */
  function HistoryEntry(h: Host, left: real, op: string, right: real, result: real): string {
    h.format(left) + " " + op + " " + h.format(right) + " = " + h.format(result)
  }

  /**
   * `inputDigit`: an error or a finished operand is replaced by the digit, a
   * lone "0" is replaced (no leading zeros), anything else is extended.
   */
  function InputDigit(s: State, d: DigitChar): (r: State)
    ensures r.error.None? && !r.waitingForOperand
    ensures s.error.Some? || s.waitingForOperand || s.display == "0" ==> r.display == [d]
    ensures s.error.None? && !s.waitingForOperand && s.display != "0" ==> r.display == s.display + [d]
    ensures r == s.(display := r.display, error := None, waitingForOperand := false)
  {
    if s.error.Some? then s.(display := [d], error := None, waitingForOperand := false)
    else if s.waitingForOperand then s.(display := [d], waitingForOperand := false)
    else s.(display := if s.display == "0" then [d] else s.display + [d])
  }

  /**
   * `inputDecimal`: an error or a finished operand gives "0."; otherwise a
   * point is appended only when the display has none, so a second point is
   * ignored.
   */
  function InputDecimal(s: State): (r: State)
    ensures r.error.None? && !r.waitingForOperand && '.' in r.display
    ensures SingleDot(s.display) ==> SingleDot(r.display)
    ensures s.error.Some? || s.waitingForOperand ==> r.display == "0."
    ensures s.error.None? && !s.waitingForOperand && '.' in s.display ==> r == s
    ensures s.error.None? && !s.waitingForOperand && '.' !in s.display ==> r.display == s.display + "."
    ensures r == s.(display := r.display, error := None, waitingForOperand := false)
  {
    if s.error.Some? then s.(display := "0.", error := None, waitingForOperand := false)
    else if s.waitingForOperand then s.(display := "0.", waitingForOperand := false)
    else if '.' !in s.display then s.(display := s.display + ".")
    else s
  }

  /**
   * `inputOperator`: ignored in the error state. With no left operand, the
   * display is captured; with a pending operator (a truthy, i.e. non-empty,
   * string) and a freshly entered right operand, the pending operation is
   * evaluated left to right; otherwise only the operator is replaced.
   */
  function InputOperator(h: Host, s: State, op: string): (r: State)
    ensures s.error.Some? ==> r == s
    ensures r.memory == s.memory && r.history == s.history
    ensures PendingPaired(s) ==> PendingPaired(r)
    ensures s.error.None? && s.previousValue.None? ==>
      r == s.(previousValue := Some(h.parse(s.display)), operator := Some(op), waitingForOperand := true)
    ensures s.error.None? && s.previousValue.Some?
            && (s.waitingForOperand || s.operator.None? || s.operator.value == "") ==>
      r == s.(operator := Some(op), waitingForOperand := true)
    ensures s.error.None? && s.previousValue.Some? && s.operator.Some? && s.operator.value != ""
            && !s.waitingForOperand ==>
      var v := Calculate(h, s.previousValue.value, h.parse(s.display), s.operator.value);
      if v.None? then
        r == s.(display := "0", error := Some(DivideByZero), previousValue := None, operator := None,
                waitingForOperand := false)
      else
        r == s.(display := h.format(v.value), previousValue := v, operator := Some(op), waitingForOperand := true)
    ensures s.error.None? && r.error.None? ==>
      r.operator == Some(op) && r.previousValue.Some? && r.waitingForOperand
    ensures s.error.None? && r.error.Some? ==>
      && r.error == Some(DivideByZero) && r.display == "0"
      && s.operator == Some(DIVIDE) && h.parse(s.display) == 0.0
  {
    if s.error.Some? then s
    else
      var current := h.parse(s.display);
      if s.previousValue.None? then
        s.(previousValue := Some(current), operator := Some(op), waitingForOperand := true)
      else if s.operator.Some? && s.operator.value != "" && !s.waitingForOperand then
        var result := Calculate(h, s.previousValue.value, current, s.operator.value);
        if result.None? then
          s.(display := "0", error := Some(DivideByZero), previousValue := None, operator := None,
             waitingForOperand := false)
        else
          s.(display := h.format(result.value), previousValue := result, operator := Some(op),
             waitingForOperand := true)
      else
        s.(operator := Some(op), waitingForOperand := true)
  }

  /**
   * `performCalculation` (the `=` button): evaluates the pending operation,
   * logs it and clears it; a division by zero enters the error state instead.
   */
  function PerformCalculation(h: Host, s: State): (r: State)
    ensures s.error.Some? || s.operator.None? || s.previousValue.None? ==> r == s
    ensures r.memory == s.memory
    ensures s.history <= r.history && |r.history| <= |s.history| + 1
    ensures s.error.None? && s.operator.Some? && s.previousValue.Some? ==>
      && r.previousValue.None? && r.operator.None?
      && (r.error.Some? <==> s.operator.value == DIVIDE && h.parse(s.display) == 0.0)
    ensures s.error.None? && r.error.Some? ==>
      && r.error == Some(DivideByZero) && r.display == "0" && !r.waitingForOperand
      && r.history == s.history
    ensures s.error.None? && s.operator.Some? && s.previousValue.Some? && r.error.None? ==>
      var current := h.parse(s.display);
      var v := Calculate(h, s.previousValue.value, current, s.operator.value);
      && v.Some? && r.display == h.format(v.value) && r.waitingForOperand
      && r.history == s.history + [HistoryEntry(h, s.previousValue.value, s.operator.value, current, v.value)]
  {
    if s.error.Some? || s.operator.None? || s.previousValue.None? then s
    else
      var current := h.parse(s.display);
      var result := Calculate(h, s.previousValue.value, current, s.operator.value);
      if result.None? then
        s.(display := "0", error := Some(DivideByZero), previousValue := None, operator := None,
           waitingForOperand := false)
      else
        s.(display := h.format(result.value), previousValue := None, operator := None,
           waitingForOperand := true,
           history := s.history + [HistoryEntry(h, s.previousValue.value, s.operator.value, current, result.value)])
  }

  /** `clear`: back to the initial entry state, keeping memory and history. */
  function ClearEntry(s: State): (r: State)
    ensures r.memory == s.memory && r.history == s.history
    ensures r.(memory := Initial.memory, history := Initial.history) == Initial
  {
    Initial.(memory := s.memory, history := s.history)
  }

  /** `toggleSign`: ignored in the error state; otherwise only the display changes, to the negated value. */
  function ToggleSign(h: Host, s: State): (r: State)
    ensures s.error.Some? ==> r == s
    ensures s.error.None? ==> r == s.(display := h.format(-h.parse(s.display)))
  {
    if s.error.Some? then s
    else s.(display := h.format(-h.parse(s.display)))
  }

  /** `percent`: ignored in the error state; otherwise shows the value divided by 100 as a finished operand. */
  function Percent(h: Host, s: State): (r: State)
    ensures s.error.Some? ==> r == s
    ensures s.error.None? ==> r == s.(display := h.format(h.parse(s.display) / 100.0), waitingForOperand := true)
  {
    if s.error.Some? then s
    else s.(display := h.format(h.parse(s.display) / 100.0), waitingForOperand := true)
  }

  /**
   * The result of a known scientific function on `value`, or the error its
   * guard raises. The trigonometric functions take degrees.
   */
  function ScientificResult(h: Host, name: string, value: real): (r: Option<real>)
    requires IsScientificFunction(name)
    ensures r.None? <==> (name == SQRT && value < 0.0) || ((name == LOG || name == LN) && value <= 0.0)
                         || (name == RECIPROCAL && value == 0.0)
    ensures name == PI ==> r == Some(h.pi)
    ensures name == E ==> r == Some(h.e)
    ensures name == RECIPROCAL && r.Some? ==> r.value * value == 1.0
    ensures name == SIN ==> r == Some(h.sin(value * h.pi / 180.0))
    ensures name == COS ==> r == Some(h.cos(value * h.pi / 180.0))
    ensures name == TAN ==> r == Some(h.tan(value * h.pi / 180.0))
    ensures name == SQUARE ==> r == Some(value * value) && r.value >= 0.0
    ensures name == SQRT && value >= 0.0 ==> r == Some(h.sqrt(value))
    ensures name == LOG && value > 0.0 ==> r == Some(h.log10(value))
    ensures name == LN && value > 0.0 ==> r == Some(h.ln(value))
  {
    if name == SIN then Some(h.sin(value * h.pi / 180.0))
    else if name == COS then Some(h.cos(value * h.pi / 180.0))
    else if name == TAN then Some(h.tan(value * h.pi / 180.0))
    else if name == SQRT then (if value < 0.0 then None else Some(h.sqrt(value)))
    else if name == LOG then (if value <= 0.0 then None else Some(h.log10(value)))
    else if name == LN then (if value <= 0.0 then None else Some(h.ln(value)))
    else if name == SQUARE then Some(value * value)
    else if name == RECIPROCAL then (if value == 0.0 then None else Some(1.0 / value))
    else if name == PI then Some(h.pi)
    else Some(h.e)
  }

  /**
   * `scientificFn`: ignored in the error state and for unknown names. A guard
   * failure shows "0" and the error but keeps the pending operation; every
   * outcome of a known function marks the display as a finished operand.
   */
  function ScientificFn(h: Host, s: State, name: string): (r: State)
    ensures s.error.Some? || !IsScientificFunction(name) ==> r == s
    ensures && r.previousValue == s.previousValue && r.operator == s.operator
            && r.memory == s.memory && r.history == s.history
    ensures s.error.None? && IsScientificFunction(name) ==> r.waitingForOperand
    ensures s.error.None? ==>
      (r.error == Some(InvalidInput) <==>
         (name == SQRT && h.parse(s.display) < 0.0) || ((name == LOG || name == LN) && h.parse(s.display) <= 0.0))
    ensures s.error.None? ==>
      (r.error == Some(DivideByZero) <==> name == RECIPROCAL && h.parse(s.display) == 0.0)
    ensures s.error.None? && r.error.Some? ==> r.display == "0"
    ensures s.error.None? && r.error.None? && IsScientificFunction(name) ==>
      r.display == h.format(ScientificResult(h, name, h.parse(s.display)).value)
  {
    if s.error.Some? || !IsScientificFunction(name) then s
    else
      var result := ScientificResult(h, name, h.parse(s.display));
      if result.Some? then s.(display := h.format(result.value), waitingForOperand := true)
      else
        var err := if name == RECIPROCAL then DivideByZero else InvalidInput;
        s.(display := "0", error := Some(err), waitingForOperand := true)
  }

  /**
   * `memoryOp`: not blocked by the error state. MC zeroes the register, MR
   * recalls it as a finished operand, M+ and M- add or subtract the displayed
   * value and leave the display open for more digits.
   */
  function MemoryOp(h: Host, s: State, op: string): (r: State)
    ensures && r.previousValue == s.previousValue && r.operator == s.operator
            && r.history == s.history && r.error == s.error
    ensures op == MC ==> r == s.(memory := 0.0)
    ensures op == MR ==> r == s.(display := h.format(s.memory), waitingForOperand := true)
    ensures op == MPLUS ==> r == s.(memory := s.memory + h.parse(s.display))
    ensures op == MMINUS ==> r == s.(memory := s.memory - h.parse(s.display))
    ensures op != MC && op != MR && op != MPLUS && op != MMINUS ==> r == s
  {
    var value := h.parse(s.display);
    if op == MC then s.(memory := 0.0)
    else if op == MR then s.(display := h.format(s.memory), waitingForOperand := true)
    else if op == MPLUS then s.(memory := s.memory + value)
    else if op == MMINUS then s.(memory := s.memory - value)
    else s
  }

  /**
   * One step of the state machine. History only grows, by at most one entry
   * and only on `=`, except that a full reset empties it; the memory register
   * is touched only by the memory operations and the full reset.
   */
  function Apply(h: Host, s: State, a: Action): (r: State)
    ensures !a.ClearAll? ==> s.history <= r.history
    ensures |r.history| <= |s.history| + (if a.Equals? then 1 else 0)
    ensures !a.Mem? && !a.ClearAll? ==> r.memory == s.memory
    ensures PendingPaired(s) ==> PendingPaired(r)
  {
    match a
    case Digit(d) => InputDigit(s, d)
    case Decimal => InputDecimal(s)
    case Operator(op) => InputOperator(h, s, op)
    case Equals => PerformCalculation(h, s)
    case Clear => ClearEntry(s)
    case ClearAll => Initial
    case ToggleSign => ToggleSign(h, s)
    case Percent => Percent(h, s)
    case Fn(name) => ScientificFn(h, s, name)
    case Mem(op) => MemoryOp(h, s, op)
  }

  /** A session: the actions applied one after another. */
  function Run(h: Host, s: State, acts: seq<Action>): (r: State)
    ensures (forall i :: 0 <= i < |acts| ==> !acts[i].ClearAll?) ==> s.history <= r.history
    ensures (forall i :: 0 <= i < |acts| ==> !acts[i].Mem? && !acts[i].ClearAll?) ==> r.memory == s.memory
    ensures PendingPaired(s) ==> PendingPaired(r)
    decreases |acts|
  {
    if acts == [] then s else Run(h, Apply(h, s, acts[0]), acts[1..])
  }

  /** `history.slice(-20)`: the entries written to storage, oldest first. */
  function PersistedHistory(history: seq<string>): (r: seq<string>)
    ensures |r| == if |history| < PERSISTED_HISTORY then |history| else PERSISTED_HISTORY
    ensures r == history[|history| - |r|..]
  {
    if |history| <= PERSISTED_HISTORY then history else history[|history| - PERSISTED_HISTORY..]
  }
}
