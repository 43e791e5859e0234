/**
 * The JavaScript values the schema engine compares and classifies.
 *
 * A JS number is an IEEE double; here a finite double is an exact real,
 * next to the two infinities and NaN. Rounding is not modelled.
 */
module Values {

  /** A JS number: a finite value, +Infinity, -Infinity or NaN. */
  datatype Number = Fin(r: real) | PosInf | NegInf | NaN

  /**
   * A candidate value: a number, a string, a boolean, or a plain object,
   * whose numeric conversion is NaN.
   */
  datatype Value = Num(n: Number) | Str(s: string) | Bool(b: bool) | Other

  /** The six operators of the operator table. */
  datatype Op = Ne | Eq | Lt | Le | Gt | Ge

  /** `Number.MAX_SAFE_INTEGER`, 2^53 - 1. */
  const MaxSafeInteger: int := 0x1F_FFFF_FFFF_FFFF

  /** The spelling of an operator in a flag token. */
  function OpText(op: Op): string
  {
    match op
    case Ne => "!=="
    case Eq => "==="
    case Lt => "<"
    case Le => "<="
    case Gt => ">"
    case Ge => ">="
  }

  /** `b op a` for a number `b` and a finite operand `a`, as IEEE comparison has it. */
  function Compare(op: Op, b: Number, a: real): (r: bool)
    ensures b == NaN ==> (r <==> op == Ne)
  {
    match b
    case NaN => op == Ne
    case PosInf => op == Ne || op == Gt || op == Ge
    case NegInf => op == Ne || op == Lt || op == Le
    case Fin(x) =>
      match op
      case Ne => x != a
      case Eq => x == a
      case Lt => x < a
      case Le => x <= a
      case Gt => x > a
      case Ge => x >= a
  }

  /** `Number.isInteger`: a finite number without a fractional part. */
  predicate IsInteger(n: Number)
  {
    n.Fin? && n.r.Floor as real == n.r
  }

  /** `Number.isSafeInteger`: an integer of magnitude at most 2^53 - 1. */
  predicate IsSafeInteger(n: Number)
  {
    IsInteger(n) && -MaxSafeInteger <= n.r.Floor <= MaxSafeInteger
  }

  /**
   * `Number.isInteger` accepts every integer and nothing with a fraction
   * or without a finite value; `Number.isSafeInteger` accepts exactly the
   * integers within 2^53 - 1 of zero.
   */
  lemma IntegerChecks(k: int, x: real)
    ensures IsInteger(Fin(k as real))
    ensures IsSafeInteger(Fin(k as real)) <==> -MaxSafeInteger <= k <= MaxSafeInteger
    ensures IsSafeInteger(Fin(x)) ==> IsInteger(Fin(x))
    ensures x.Floor as real != x ==> !IsInteger(Fin(x))
    ensures !IsInteger(PosInf) && !IsInteger(NegInf) && !IsInteger(NaN)
  {
  }

  /**
   * The number an ordering comparison (`<`, `<=`, `>`, `>=`) converts a
   * value to: booleans become 0 or 1, objects NaN. String-to-number
   * conversion is not modelled: a string converts to NaN here.
   */
  function ToNumber(v: Value): Number
  {
    match v
    case Num(n) => n
    case Bool(b) => Fin(if b then 1.0 else 0.0)
    case Str(_) => NaN
    case Other => NaN
  }

  /**
   * `b op a` for any value `b` and a numeric literal `a`: `===` and `!==`
   * are strict (a non-number is never equal to a number), the orderings
   * convert `b` to a number first.
   */
  function CompareValue(op: Op, b: Value, a: real): (r: bool)
    ensures (op == Eq || op == Ne) && !b.Num? ==> (r <==> op == Ne)
    ensures b.Num? ==> r == Compare(op, b.n, a)
  {
    match op
    case Eq => b.Num? && Compare(Eq, b.n, a)
    case Ne => !(b.Num? && Compare(Eq, b.n, a))
    case _ => Compare(op, ToNumber(b), a)
  }
}
