# MFOS calculator: input-and-evaluation state machine in Dafny

This project models the state machine of the MFOS calculator example app
(`mfos/examples/calculator/src/index.tsx`). The app turns button presses
into a running left-to-right computation. Its state is one record:

- the display text;
- a pending binary operator and its captured left operand;
- the "waiting for operand" flag;
- a memory register;
- the history of completed expressions;
- an error.

Each handler in the source is a React updater `prev => next` that returns a
fresh record. Here each handler is a pure function `State -> State`:

- `Calculator.Apply` dispatches one button press (`Action`) to its handler.
- `Calculator.Run` applies a sequence of presses.

Files:

- `numerics.dfy` (module `Numerics`): the JavaScript number runtime, taken as a parameter `Host`. It supplies `parseFloat`, `String(number)`, `Math.pow`, `%` on doubles, the trigonometric and logarithmic functions, `Math.PI` and `Math.E`. No general property of these functions is assumed. Three kinds of statement carry hypotheses about them: the display invariant needs the predicate `FormatsPlainly` (`String(number)` is non-empty and has at most one `.`); `ToggleSignTwice` needs `parseFloat` to read back the negated value it printed; and each scenario in `scenarios.dfy` states the `parseFloat` and `String(number)` values it uses at the specific numbers involved (for example `parseFloat("5") == 5`).
- `calculator.dfy` (module `Calculator`): the state record, `calculate`, the ten handlers, `Apply`, `Run` and the persisted-history slice.
- `properties.dfy` (module `CalculatorProperties`): the state invariant and its preservation, what typing digits shows, how the error state is entered and left, and left-to-right evaluation of operator chains against a reference evaluator.
- `scenarios.dfy` (module `CalculatorScenarios`): concrete button sequences.

Numbers are modelled as `real`. `+`, `-`, `*`, `/` and the guards (`< 0`, `<= 0`, `=== 0`) are exact. Everything else goes through `Host`.

Operator, function and memory-operation names stay strings, as in the source. This keeps the `default` branches of the source's `switch` statements in the model:

- an unknown operator yields the right operand;
- an unknown function or memory operation changes nothing.

It also keeps one JavaScript truthiness detail. `prev.operator && ...` treats an empty operator string as absent, so it does not evaluate. `performCalculation`, by contrast, only tests for `null`.

Errors are the message keys `DivideByZero` and `InvalidInput` rather than translated text.

## Behaviour worth noting

- `mod` by zero is not an error: only `÷` is guarded (`index.tsx:96-100`). No button sends `mod`: the operator buttons send only `÷`, `×`, `-`, `+` and `^` (`index.tsx:355-416`). So this branch of `calculate` cannot be reached from the keypad; `ModuloByZeroIsNotAnError` describes `calculate` itself.
- A domain error from a scientific function sets `waitingForOperand` and keeps the pending operator and operand (`index.tsx:247`).
- Memory operations run in the error state. `MR` even replaces the display there (`index.tsx:280-291`).
- `M+` and `M-` do not set `waitingForOperand` (`index.tsx:286-287`). So `4 M+ 9 M+ MR` adds 4 and then 49, and recalls 53 (`MemoryAddThenDigitExtends`).
- A repeated operator press also sets `waitingForOperand` (`index.tsx:167`). That press is only reached with the flag already set, unless the pending operator is the empty string.

The project verifies with

    dafny verify numerics.dfy calculator.dfy properties.dfy scenarios.dfy

## Model

| member | source | states |
|---|---|---|
| Calculator.Calculate | mfos/examples/calculator/src/index.tsx:91-103 | Division by zero (`None`) happens exactly for `÷` with a zero right operand; `mod` by zero is not guarded; `^` and `mod` call the runtime's `Math.pow` and `%`; over exact reals, `×` is undone by dividing by a non-zero right operand and gives 0 for a zero one, and `+`, `-` and `÷` invert (result minus / plus / times the right operand gives the left); an unknown operator yields the right operand |
| Calculator.InputDigit | mfos/examples/calculator/src/index.tsx:106-117 | After an error, a finished operand or a lone "0" the display becomes the digit, otherwise the digit is appended; the error is cleared, the entry is open, nothing else changes |
| Calculator.InputDecimal | mfos/examples/calculator/src/index.tsx:119-130 | After an error or a finished operand the display is "0."; otherwise "." is appended only if absent and a second point changes nothing; the display always has a point afterwards and keeps at most one |
| Calculator.InputOperator | mfos/examples/calculator/src/index.tsx:132-169 | Blocked by an error; with no left operand it captures the parsed display; with a pending non-empty operator and a fresh operand it evaluates and shows/stores the result, or enters DivideByZero and drops the pending pair; a press while waiting for an operand, or with an empty (falsy) pending operator, only replaces the operator and sets waiting; keeps the pending pair invariant, memory and history |
| Calculator.PerformCalculation | mfos/examples/calculator/src/index.tsx:171-201 | No-op on error or with nothing pending; otherwise clears the pending pair; on success shows the result, sets waiting and appends exactly the entry "left op right = result"; on `÷` by 0 enters DivideByZero with display "0" and history unchanged |
| Calculator.ClearEntry | mfos/examples/calculator/src/index.tsx:203-209 | Every field returns to its initial value except memory and history, which are kept |
| Calculator.ToggleSign | mfos/examples/calculator/src/index.tsx:218-224 | Blocked by an error; otherwise only the display changes, to the formatted negated value |
| Calculator.Percent | mfos/examples/calculator/src/index.tsx:226-232 | Blocked by an error; otherwise the display shows the value divided by 100 and becomes a finished operand, nothing else changes |
| Calculator.ScientificResult | mfos/examples/calculator/src/index.tsx:241-273 | A known function fails exactly for sqrt of a negative, log/ln of a non-positive and 1/x of zero; on valid inputs sqrt, log and ln call the runtime's `Math.sqrt`, `Math.log10` (base 10) and `Math.log` (natural); sin, cos and tan apply the runtime's function to the value converted from degrees (value·π/180); x² is value·value and never negative; π and e ignore the value; over exact reals, 1/x is the multiplicative inverse |
| Calculator.ScientificFn | mfos/examples/calculator/src/index.tsx:235-277 | Blocked by an error and a no-op for unknown names; InvalidInput exactly for sqrt < 0 and log/ln <= 0, DivideByZero exactly for 1/x of 0; errors show "0"; every known function sets waiting; pending pair, memory and history never change |
| Calculator.MemoryOp | mfos/examples/calculator/src/index.tsx:280-291 | MC zeroes memory, MR shows memory and sets waiting, M+/M- add/subtract the parsed display and change nothing else, unknown ops change nothing; the error and the pending pair are never touched |
| Calculator.Apply | mfos/examples/calculator/src/index.tsx:106-291 | History only grows, by at most one entry and only on `=`, except that the full reset empties it; memory changes only by memory ops and the full reset; keeps the pending pair invariant |
| Calculator.Run | mfos/examples/calculator/src/index.tsx:106-291 | Over a whole session: history is only extended when there is no full reset, memory is unchanged when there are no memory ops or full reset, the pending pair invariant is kept |
| Calculator.PersistedHistory | mfos/examples/calculator/src/index.tsx:71 | The persisted history is the last min(n, 20) entries, oldest first |
| CalculatorProperties.InitialValid | mfos/examples/calculator/src/index.tsx:25-33 | The initial state satisfies the invariant (pending pair, non-empty display with at most one point) |
| CalculatorProperties.ApplyKeepsValid | mfos/examples/calculator/src/index.tsx:106-291 | Every action keeps the invariant, for any runtime whose number formatting is non-empty with at most one point |
| CalculatorProperties.RunKeepsValid | mfos/examples/calculator/src/index.tsx:106-291 | Every state reached by any session from a valid state is valid |
| CalculatorProperties.Canonical | mfos/examples/calculator/src/index.tsx:112-115 | The text a fresh number shows is a non-empty suffix of the typed digits with no leading zero; everything dropped is a zero |
| CalculatorProperties.TypingExtends | mfos/examples/calculator/src/index.tsx:112-115 | Digits typed into an open operand other than "0" are appended, and nothing else changes |
| CalculatorProperties.TypingFromZero | mfos/examples/calculator/src/index.tsx:112-115 | Digits typed onto a lone "0" show the digits without leading zeros |
| CalculatorProperties.TypingFreshOperand | mfos/examples/calculator/src/index.tsx:106-117 | After an error or a finished operand, typing digits shows them without leading zeros, clears the error and opens the entry |
| CalculatorProperties.DecimalIdempotent | mfos/examples/calculator/src/index.tsx:119-130 | Pressing "." twice is pressing it once |
| CalculatorProperties.ErrorBlocks | mfos/examples/calculator/src/index.tsx:132-277 | With an error shown, operator, `=`, ±, % and every scientific function leave the state unchanged |
| CalculatorProperties.MemoryIgnoresError | mfos/examples/calculator/src/index.tsx:280-291 | Memory ops are not blocked by an error: error and pending pair stay, MR still shows memory |
| CalculatorProperties.ErrorExit | mfos/examples/calculator/src/index.tsx:106-216 | The error state is left exactly by a digit, a decimal point, clear or the full reset |
| CalculatorProperties.ErrorEntry | mfos/examples/calculator/src/index.tsx:132-277 | DivideByZero is entered exactly by an evaluating `÷` operator press, `=` on `÷` or 1/x, each of zero; InvalidInput exactly by sqrt < 0 or log/ln <= 0; either shows "0" |
| CalculatorProperties.ErrorPersists | mfos/examples/calculator/src/index.tsx:132-291 | A session without digit, point, clear or reset keeps the error and the pending pair |
| CalculatorProperties.UnaryErrorKeepsPending | mfos/examples/calculator/src/index.tsx:245-267 | A scientific-function error keeps the pending operator and operand, shows "0" and sets waiting |
| CalculatorProperties.LastOperatorWins | mfos/examples/calculator/src/index.tsx:132-169 | Two operator presses in a row act as the second one alone |
| CalculatorProperties.ModuloByZeroIsNotAnError | mfos/examples/calculator/src/index.tsx:96-100 | `=` on a pending `mod` with a zero operand shows the runtime's remainder and raises no error (a state no keypad button produces, see above) |
| CalculatorProperties.OperatorCaptures | mfos/examples/calculator/src/index.tsx:137-144 | With no left operand an operator press stores the parsed display and the operator and sets waiting |
| CalculatorProperties.OperatorAfterOperand | mfos/examples/calculator/src/index.tsx:146-165 | After a fresh right operand, an operator press shows and stores the result and makes the new operator pending |
| CalculatorProperties.EqualsAfterOperand | mfos/examples/calculator/src/index.tsx:171-201 | After a fresh right operand, `=` shows the result, clears the pending pair, sets waiting and logs one entry |
| CalculatorProperties.PendingChain | mfos/examples/calculator/src/index.tsx:132-201 | From a pending operation, typing the rest of a chain and `=` shows the reference left-to-right value and logs one entry |
| CalculatorProperties.ChainEvaluatesLeftToRight | mfos/examples/calculator/src/index.tsx:132-201 | `x op1 y1 op2 y2 ... =` shows the strictly left-to-right, no-precedence value of the chain, and logs exactly one entry |
| CalculatorProperties.ToggleSignTwice | mfos/examples/calculator/src/index.tsx:218-224 | Pressing ± twice leaves the state as it was, except that the display shows the displayed value re-formatted, whenever the runtime reads back the negated value it printed |
| CalculatorProperties.PercentFinishesOperand | mfos/examples/calculator/src/index.tsx:226-232 | After %, the next digit starts a new number, and the pending left operand is kept |
| CalculatorProperties.ClearKeepsMemoryAndHistory | mfos/examples/calculator/src/index.tsx:203-209 | Clear keeps memory and history, depends on nothing else, and is idempotent |
| CalculatorProperties.ClearAllForgets | mfos/examples/calculator/src/index.tsx:211-216 | The full reset yields the initial state whatever came before |
| CalculatorProperties.TrigonometryInDegrees | mfos/examples/calculator/src/index.tsx:242-244 | sin, cos and tan read the display in degrees: 180 gives the runtime's function of π, 90 that of π/2 |
| CalculatorProperties.SquareIgnoresSign | mfos/examples/calculator/src/index.tsx:263 | x² gives the same for a value and its negation, and is never negative |
| CalculatorProperties.ConstantsIgnoreDisplay | mfos/examples/calculator/src/index.tsx:270-271 | π and e give the same state whatever is displayed |
| CalculatorProperties.MemoryAddKeepsEntryOpen | mfos/examples/calculator/src/index.tsx:280-291 | After M+ or M-, a digit extends the displayed number instead of starting a new one |
| CalculatorProperties.PersistedHistoryEvictsOldest | mfos/examples/calculator/src/index.tsx:71 | Appending to the log keeps up to 20 persisted entries, dropping the oldest first and keeping the newest last |
| CalculatorScenarios.FivePlusThree | mfos/examples/calculator/src/index.tsx:106-201 | 5 + 3 = shows "8" and logs "5 + 3 = 8" |
| CalculatorScenarios.FiveDividedByZero | mfos/examples/calculator/src/index.tsx:171-201 | 5 ÷ 0 = gives DivideByZero, display "0", no pending pair, no history |
| CalculatorScenarios.SqrtOfNegativeRecovers | mfos/examples/calculator/src/index.tsx:245-248 | sqrt of -4 gives InvalidInput; the next digit 7 clears it and shows "7" |
| CalculatorScenarios.MemoryAddThenDigitExtends | mfos/examples/calculator/src/index.tsx:280-291 | 4 M+ 9 M+ MR leaves 53 in memory and shows it |
| CalculatorScenarios.NoLeadingZeros | mfos/examples/calculator/src/index.tsx:112-115 | 0 0 5 shows "5" |
| CalculatorScenarios.DecimalTwice | mfos/examples/calculator/src/index.tsx:119-130 | . . shows "0." |
| CalculatorScenarios.TwentyFiveEntriesPersistTwenty | mfos/examples/calculator/src/index.tsx:71 | Of 25 entries the newest 20 are persisted, oldest first |

## Left out

- Rendering, styles, button grids and the basic/scientific mode tab (`index.tsx:293-572`, the `mode` state): UI with no calculation logic. Which `Action` each button sends is taken from that code.
- Storage I/O: loading history and memory on mount, saving history, memory and mode, and `clearAll`'s `storage.remove`. Only the pure `slice(-20)` of the saved history is modelled.
- Translation: error messages are the keys `DivideByZero` and `InvalidInput`, not translated text. The model assumes every translated message is non-empty: the error guards (`index.tsx:108, 121, 134, 173, 220, 228, 237`) test `prev.error` for truthiness, so an empty translation would make the error state invisible to them.
- Floating point: numbers are exact `real`s. NaN, ±Infinity and -0 cannot be represented, so guards that see NaN (which compares false) are not modelled. Rounding of `+ - * /`, `value * value`, `value / 100` and `1 / value` is not modelled. `parseFloat`, `String(number)`, `Math.*` and `%` are runtime parameters; no general property of them is assumed, in particular not `parseFloat(String(x)) == x` (the specific hypotheses are listed above).
- Calculator.InputDigit: the argument is a decimal digit; the source accepts any string, but every caller passes `'0'`–`'9'`.
- The on-screen history view (`history.slice(-5).reverse()`): presentation only.
- The other files of the repository (the app template, the counter bundle, the host API typings and the build configuration) are not part of this model; `CalculatorState` in `mfos/examples/calculator/src/types.ts:74-82` is the `State` datatype.
