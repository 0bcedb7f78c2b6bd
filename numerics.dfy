/**
 * The JavaScript number runtime the calculator relies on, taken as a parameter.
 *
 * The calculator works on IEEE doubles and converts them to and from text with
 * `parseFloat` and `String(number)`. The model computes with exact `real`s for
 * the four operations it writes out itself (`+`, `-`, `*`, `/`) and leaves
 * everything else (parsing, formatting, `Math.pow`, `%` on doubles, the
 * trigonometric and logarithmic functions and the two constants) to a `Host`
 * value whose functions are not interpreted: every property proved below holds
 * for every choice of them.
 */
module Numerics {

  /** The runtime's number services that the calculator calls. */
  datatype Host = Host(
    parse: string -> real,        // parseFloat
    format: real -> string,       // String(number), also used by template literals
    pow: (real, real) -> real,    // Math.pow
    mod: (real, real) -> real,    // the remainder operator `%` on doubles
    sin: real -> real,            // Math.sin (radians)
    cos: real -> real,            // Math.cos (radians)
    tan: real -> real,            // Math.tan (radians)
    sqrt: real -> real,           // Math.sqrt
    log10: real -> real,          // Math.log10
    ln: real -> real,             // Math.log
    pi: real,                     // Math.PI
    e: real                       // Math.E
  )

  /** A text holds at most one decimal point. */
  predicate SingleDot(s: string) {
    forall i, j :: 0 <= i < j < |s| && s[i] == '.' ==> s[j] != '.'
  }

  /**
   * What `String(number)` guarantees about its output and the calculator
   * relies on: the text is not empty and holds at most one decimal point
   * (exponential forms such as "1.5e-7" included).
   */
  ghost predicate FormatsPlainly(h: Host) {
    forall x :: |h.format(x)| > 0 && SingleDot(h.format(x))
  }
}
